/** Checking user pointers, and reading the strings behind them (kernel/arch/i386/syscall.c). */
module UserAccess {
  import opened Arith
  import opened Words
  import opened Paging
  import opened Address
  import opened Mapping
  import opened UserSpace
  import opened Pages
  import opened UserMap
  import opened Machine

  const USER_LIMIT := 0xC000_0000
  const MAX_PATH: nat := 256

  /** Every byte of the range is within reach of user mode. */
  ghost predicate InReach(img: map<int, Byte>, addr: int, len: int)
  {
    forall a {:trigger a in img} :: addr <= a < addr + len ==> a in img
  }

  /** User mode reaches nothing from USER_LIMIT on. */
  lemma ReachEnds(s: Space, D: int)
    requires Inv(s) && D in s.dirs
    ensures forall a :: a in Image(s.mem, D) ==> 0 <= a < USER_LIMIT
  {
    hide Image, Inv;
    ImageRange(s.mem, D);
    forall a | a in Image(s.mem, D)
      ensures a < USER_LIMIT
    {
      ImageAt(s, D, a);
    }
  }

  /** One page is in reach or out of it as a whole. */
  lemma PageInReach(s: Space, D: int, a: int, b: int)
    requires Inv(s) && D in s.dirs && 0 <= a <= b < a + PAGE && a % PAGE == 0 && b < WORD
    ensures UserReaches(s.mem, D, a) <==> b in Image(s.mem, D)
  {
    hide Inv, DirOf, TableOf, WordOf, Pte, Pde;
    SamePage(a, b);
    ReachesIff(s, D, b);
  }

  lemma SamePage(a: int, b: int)
    requires 0 <= a <= b < a + PAGE && a % PAGE == 0 && b < WORD
    ensures DirOf(a) == DirOf(b) && TableOf(a) == TableOf(b)
  {
    hide DirOf, TableOf, WordOf;
    AddressParts(b);
    AlignedAddress(a);
    PageSpanned(a, b);
    PageOf(b, DirOf(a), TableOf(a));
  }

  lemma PageSpanned(a: int, b: int)
    requires a % PAGE == 0 && a <= b < a + PAGE
    ensures RoundDown(b) == a
  {
  }

  lemma FirstPage(addr: int)
    requires 0 <= addr
    ensures 0 <= RoundDown(addr) <= addr < RoundDown(addr) + PAGE && RoundDown(addr) % PAGE == 0
  {
  }

  /** A range is in reach exactly when its parts are; a single byte, when user mode can read it; no byte at all,
      always. */
  lemma ReachLaw(img: map<int, Byte>, addr: int, n: nat, k: nat)
    ensures InReach(img, addr, n + k) <==> InReach(img, addr, n) && InReach(img, addr + n, k)
    ensures InReach(img, addr, 1) <==> addr in img
    ensures InReach(img, addr, 0)
  {
    assert addr in img <==> InReach(img, addr, 1);
  }

  /** user_range_ok, with its 32-bit overflow test: true exactly when every byte is in reach. */
  method UserRangeOk(m: Machine, addr: int, len: int) returns (ok: bool)
    requires m.Valid() && 0 <= addr < WORD && 0 <= len < WORD
    ensures ok <==> InReach(Image(m.mem, m.cr3), addr, len)
  {
    hide Inv, Image, RoundDown, UserReaches;
    ReachEnds(m.S(), m.cr3);
    if len == 0 {
      return true;
    }
    var end := (addr + len) % WORD;
    if addr >= USER_LIMIT || end < addr || end > USER_LIMIT {
      assert addr !in Image(m.mem, m.cr3) || addr + len - 1 !in Image(m.mem, m.cr3);
      return false;
    }
    FirstPage(addr);
    var a := RoundDown(addr);
    while a < end
      invariant a % PAGE == 0 && 0 <= a < end + PAGE && RoundDown(addr) <= a
      invariant forall b :: addr <= b < a && b < end ==> b in Image(m.mem, m.cr3)
    {
      var user := m.PagingIsUser(a);
      forall b | a <= b < a + PAGE && b < WORD
        ensures user <==> b in Image(m.mem, m.cr3)
      {
        PageInReach(m.S(), m.cr3, a, b);
      }
      if !user {
        assert (if a < addr then addr else a) !in Image(m.mem, m.cr3);
        return false;
      }
      a := a + 0x1000;
    }
    return true;
  }

  /** A string of n bytes and its terminator at addr. */
  ghost predicate StringAt(img: map<int, Byte>, addr: int, s: seq<Byte>)
  {
    && NoEnd(img, addr, s)
    && addr + |s| in img && img[addr + |s|] == 0
  }

  /** The bytes from addr on are those of s, none of them NUL, and then a NUL. */
  ghost predicate Terminated(img: map<int, Byte>, addr: int, s: seq<Byte>)
  {
    && addr + |s| in img && img[addr + |s|] == 0
    && forall k {:trigger s[k]} :: 0 <= k < |s| ==> s[k] != 0 && addr + k in img && img[addr + k] == s[k]
  }

  /** Bytes other than NUL, and then a NUL: these are the string at their address, and there is no other. */
  lemma StringStored(img: map<int, Byte>, addr: int, s: seq<Byte>, t: seq<Byte>)
    requires Terminated(img, addr, s)
    ensures StringAt(img, addr, t) <==> t == s
  {
    if StringAt(img, addr, t) {
      NotShorter(img, addr, s, |t|);
      NotShorter(img, addr, t, |s|);
      forall k | 0 <= k < |s|
        ensures t[k] == s[k]
      {
        assert t[k] != 0 && s[k] != 0;
      }
    }
  }

  /** A string does not go on behind a NUL. */
  lemma NotShorter(img: map<int, Byte>, addr: int, s: seq<Byte>, n: nat)
    requires NoEnd(img, addr, s) && addr + n in img && img[addr + n] == 0
    ensures |s| <= n
  {
    if n < |s| {
      NoNul(img, addr, s, n);
    }
  }

  lemma NoNul(img: map<int, Byte>, addr: int, s: seq<Byte>, n: nat)
    requires NoEnd(img, addr, s) && n < |s|
    ensures addr + n in img && img[addr + n] != 0
  {
    assert s[n] != 0;
  }

  /** user_string_ok, and the string: there is at most one at an address. */
  method UserString(m: Machine, addr: int) returns (ok: bool, s: seq<Byte>)
    requires m.Valid() && 0 <= addr < WORD
    ensures ok ==> |s| < MAX_PATH && StringAt(Image(m.mem, m.cr3), addr, s)
    ensures !ok ==> forall t: seq<Byte> :: |t| < MAX_PATH ==> !StringAt(Image(m.mem, m.cr3), addr, t)
  {
    hide Inv, Image, NoEnd;
    ghost var img := Image(m.mem, m.cr3);
    ReachEnds(m.S(), m.cr3);
    s := [];
    NoEndStarts(img, addr);
    for i := 0 to MAX_PATH
      invariant |s| == i && Image(m.mem, m.cr3) == img && NoEnd(img, addr, s)
    {
      LastInReach(img, addr, s);
      var inReach := UserRangeOk(m, (addr + i) % WORD, 1);
      if !inReach {
        assert addr + i !in img;
        NoString(img, addr, s);
        return false, [];
      }
      assert addr + i in img;
      var b := LoadByte(m, addr + i);
      if b == 0 {
        return true, s;
      }
      NoEndGrows(img, addr, s, b);
      s := s + [b];
    }
    NoShortString(img, addr, s);
    return false, [];
  }

  /** The bytes read so far: none of them ends the string. */
  ghost predicate NoEnd(img: map<int, Byte>, addr: int, s: seq<Byte>)
  {
    forall k: nat :: k < |s| ==> s[k] != 0 && addr + k in img && img[addr + k] == s[k]
  }

  lemma NoEndStarts(img: map<int, Byte>, addr: int)
    ensures NoEnd(img, addr, [])
  {
  }

  lemma NoEndGrows(img: map<int, Byte>, addr: int, s: seq<Byte>, b: Byte)
    requires NoEnd(img, addr, s) && b != 0 && addr + |s| in img && img[addr + |s|] == b
    ensures NoEnd(img, addr, s + [b])
  {
    forall k: nat | k < |s| + 1
      ensures (s + [b])[k] != 0 && addr + k in img && img[addr + k] == (s + [b])[k]
    {
      assert k < |s| ==> s[k] != 0;
    }
  }

  lemma LastInReach(img: map<int, Byte>, addr: int, s: seq<Byte>)
    requires NoEnd(img, addr, s)
    ensures |s| > 0 ==> addr + |s| - 1 in img
  {
    assert |s| > 0 ==> s[|s| - 1] != 0;
  }

  lemma StringCovers(img: map<int, Byte>, addr: int, t: seq<Byte>, k: nat)
    ensures StringAt(img, addr, t) && k < |t| ==> addr + k in img
  {
    assert StringAt(img, addr, t) && k < |t| ==> t[k] != 0;
  }

  lemma NoString(img: map<int, Byte>, addr: int, s: seq<Byte>)
    requires NoEnd(img, addr, s) && addr + |s| !in img
    ensures forall t: seq<Byte> :: !StringAt(img, addr, t)
  {
    forall t: seq<Byte>
      ensures !StringAt(img, addr, t)
    {
      assert |t| < |s| ==> s[|t|] != 0;
      StringCovers(img, addr, t, |s|);
    }
  }

  lemma NoShortString(img: map<int, Byte>, addr: int, s: seq<Byte>)
    requires NoEnd(img, addr, s)
    ensures forall t: seq<Byte> :: |t| < |s| ==> !StringAt(img, addr, t)
  {
    forall t: seq<Byte> | |t| < |s|
      ensures !StringAt(img, addr, t)
    {
      assert s[|t|] != 0;
    }
  }
}
