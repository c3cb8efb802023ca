/** Single bits of a 32-bit word: `1 << k`, and what setting and clearing one bit does to the others. */
module Bits {

  /** The C expression `1 << k`. */
  function Mask(k: nat): bv32
  {
    if k == 0 then 1 else Mask(k - 1) << 1
  }

  predicate Test(w: bv32, k: nat)
  {
    Meets(w, Mask(k))
  }

  function Set(w: bv32, k: nat): bv32
  {
    Or(w, Mask(k))
  }

  function Clear(w: bv32, k: nat): bv32
  {
    AndNot(w, Mask(k))
  }

  predicate Meets(w: bv32, m: bv32)
  {
    w & m != 0
  }

  function Or(w: bv32, m: bv32): bv32
  {
    w | m
  }

  function AndNot(w: bv32, m: bv32): bv32
  {
    w & !m
  }

  predicate OneBit(m: bv32)
  {
    m & (m - 1) == 0 && m != 0
  }

  /** The position of the single bit of `m`. */
  function Index(m: bv32): nat
  {
    if m == 0x1 then 0
    else if m == 0x2 then 1
    else if m == 0x4 then 2
    else if m == 0x8 then 3
    else if m == 0x10 then 4
    else if m == 0x20 then 5
    else if m == 0x40 then 6
    else if m == 0x80 then 7
    else if m == 0x100 then 8
    else if m == 0x200 then 9
    else if m == 0x400 then 10
    else if m == 0x800 then 11
    else if m == 0x1000 then 12
    else if m == 0x2000 then 13
    else if m == 0x4000 then 14
    else if m == 0x8000 then 15
    else if m == 0x10000 then 16
    else if m == 0x20000 then 17
    else if m == 0x40000 then 18
    else if m == 0x80000 then 19
    else if m == 0x100000 then 20
    else if m == 0x200000 then 21
    else if m == 0x400000 then 22
    else if m == 0x800000 then 23
    else if m == 0x1000000 then 24
    else if m == 0x2000000 then 25
    else if m == 0x4000000 then 26
    else if m == 0x8000000 then 27
    else if m == 0x10000000 then 28
    else if m == 0x20000000 then 29
    else if m == 0x40000000 then 30
    else 31
  }

  lemma ShiftMovesIndex(m: bv32)
    requires OneBit(m) && Index(m) < 31
    ensures OneBit(m << 1) && Index(m << 1) == Index(m) + 1
  {
  }

  lemma {:induction false} MaskHasIndex(k: nat)
    requires k < 32
    ensures OneBit(Mask(k)) && Index(Mask(k)) == k
  {
    if k > 0 {
      MaskHasIndex(k - 1);
      ShiftMovesIndex(Mask(k - 1));
    }
  }

  lemma DifferentBits(m: bv32, n: bv32)
    requires OneBit(m) && OneBit(n) && m != n
    ensures m & n == 0
  {
  }

  lemma MasksDisjoint(k: nat, j: nat)
    requires k < 32 && j < 32 && k != j
    ensures !Meets(Mask(k), Mask(j))
  {
    MaskHasIndex(k);
    MaskHasIndex(j);
    DifferentBits(Mask(k), Mask(j));
  }

  lemma MeetsItself(k: nat)
    requires k < 32
    ensures Meets(Mask(k), Mask(k))
  {
    MaskHasIndex(k);
    Idempotent(Mask(k));
  }

  lemma Idempotent(m: bv32)
    ensures m & m == m
    ensures 0xFFFF_FFFF & m == m
  {
  }

  lemma OrTerms(w: bv32, m: bv32, n: bv32)
    ensures (w | m) & n == (w & n) | (m & n)
  {
  }

  lemma AndNotTerms(w: bv32, m: bv32, n: bv32)
    requires m & n == 0
    ensures (w & !m) & n == w & n
  {
  }

  lemma AndNotSelf(w: bv32, m: bv32)
    ensures (w & !m) & m == 0
  {
  }

  lemma OrNonzero(x: bv32, a: bv32, b: bv32)
    requires x == a | b
    ensures x != 0 <==> a != 0 || b != 0
  {
  }

  lemma OrMeets(w: bv32, m: bv32, n: bv32)
    ensures Meets(Or(w, m), n) <==> Meets(w, n) || Meets(m, n)
  {
    OrTerms(w, m, n);
    OrNonzero((w | m) & n, w & n, m & n);
  }

  lemma AndNotMeets(w: bv32, m: bv32, n: bv32)
    ensures !Meets(AndNot(w, m), m)
    ensures !Meets(m, n) ==> Meets(AndNot(w, m), n) == Meets(w, n)
  {
    AndNotSelf(w, m);
    if m & n == 0 {
      AndNotTerms(w, m, n);
    }
  }

  /** Setting bit k sets it and no other; clearing bit k clears it and no other. */
  lemma SetAndClear(w: bv32, k: nat, j: nat)
    requires k < 32 && j < 32
    ensures Test(Set(w, k), j) <==> j == k || Test(w, j)
    ensures Test(Clear(w, k), j) <==> j != k && Test(w, j)
  {
    hide Mask, Meets, Or, AndNot;
    OrMeets(w, Mask(k), Mask(j));
    AndNotMeets(w, Mask(k), Mask(j));
    if j == k {
      MeetsItself(k);
    } else {
      MasksDisjoint(k, j);
    }
  }

  lemma AllOnes(k: nat)
    requires k < 32
    ensures Test(0xFFFF_FFFF, k)
  {
    MaskHasIndex(k);
    Idempotent(Mask(k));
  }
}
