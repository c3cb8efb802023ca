/** 32-bit memory words in the layout of page-directory and page-table entries
    (Intel SDM Vol. 3A, section 4.3), and their four bytes. */
module Words {
  import opened Arith

  type Bits20 = n: int | 0 <= n < 0x10_0000
  type Bits9 = n: int | 0 <= n < 512
  type Byte = n: int | 0 <= n < 256

  /** Bit 0 is present, bit 1 write, bit 2 user, bits 3..11 avail, bits 12..31 the frame number. */
  datatype Word = Word(frame: Bits20, avail: Bits9, user: bool, write: bool, present: bool)

  const ZERO := Word(0, 0, false, false, false)

  /** The low twelve bits of an entry: the C expression `w & 0xFFF`. */
  function Flags(w: Word): Word
  {
    w.(frame := 0)
  }

  function Bit(b: bool): int
  {
    if b then 1 else 0
  }

  /** The unsigned 32-bit value of a word. */
  function Encode(w: Word): int
  {
    w.frame * 0x1000 + w.avail * 8 + Bit(w.user) * 4 + Bit(w.write) * 2 + Bit(w.present)
  }

  function Decode(v: int): Word
    requires 0 <= v < 0x1_0000_0000
  {
    Word(v / 0x1000, v / 8 % 512, v / 4 % 2 == 1, v / 2 % 2 == 1, v % 2 == 1)
  }

  /** Words and unsigned 32-bit values are in bijection. */
  lemma EncodeDecode(w: Word)
    ensures 0 <= Encode(w) < 0x1_0000_0000
    ensures Decode(Encode(w)) == w
  {
    var v, p, wr, u := Encode(w), Bit(w.present), Bit(w.write), Bit(w.user);
    Quotient(v, 0x1000, w.frame, w.avail * 8 + u * 4 + wr * 2 + p);
    Quotient(v, 8, w.frame * 512 + w.avail, u * 4 + wr * 2 + p);
    Quotient(w.frame * 512 + w.avail, 512, w.frame, w.avail);
    Quotient(v, 4, w.frame * 1024 + w.avail * 2 + u, wr * 2 + p);
    Quotient(w.frame * 1024 + w.avail * 2 + u, 2, w.frame * 512 + w.avail, u);
    Quotient(v, 2, w.frame * 2048 + w.avail * 4 + u * 2 + wr, p);
    Quotient(w.frame * 2048 + w.avail * 4 + u * 2 + wr, 2, w.frame * 1024 + w.avail * 2 + u, wr);
    Quotient(v, 2, w.frame * 2048 + w.avail * 4 + u * 2 + wr, p);
  }

  /** The layout the processor reads: present, write and user in bits 0, 1 and 2, the frame address in the upper 20. */
  lemma EntryBits(w: Word)
    ensures var v := Encode(w);
      && (v % 2 == 1 <==> w.present) && (v / 2 % 2 == 1 <==> w.write) && (v / 4 % 2 == 1 <==> w.user)
      && v / 0x1000 == w.frame
  {
    EncodeDecode(w);
  }

  /** The bytes of a word in memory: the lowest first. */
  lemma LittleEndian(w: Word)
    ensures Encode(w) == GetByte(w, 0) as int + 0x100 * (GetByte(w, 1) as int) + 0x1_0000 * (GetByte(w, 2) as int)
                         + 0x100_0000 * (GetByte(w, 3) as int)
  {
    hide Encode, ByteOf;
    EncodeDecode(w);
    FromBytesOf(Encode(w));
  }

  lemma DecodeEncode(v: int)
    requires 0 <= v < 0x1_0000_0000
    ensures Encode(Decode(v)) == v
  {
    var a, b, c := v / 2, v / 4, v / 8;
    assert v == a * 2 + v % 2;
    Quotient(a, 2, b, a - b * 2) by { assert v == b * 4 + v % 4; }
    Quotient(b, 2, c, b - c * 2) by { assert v == c * 8 + v % 8; }
    var f := c / 512;
    assert c == f * 512 + c % 512;
    Quotient(v, 0x1000, f, v - f * 0x1000);
  }

  /** Byte k of an unsigned 32-bit value in little-endian order. */
  function ByteOf(v: int, k: int): Byte
    requires 0 <= k < 4
  {
    if k == 0 then v % 256
    else if k == 1 then v / 0x100 % 256
    else if k == 2 then v / 0x1_0000 % 256
    else v / 0x100_0000 % 256
  }

  function FromBytes(b0: Byte, b1: Byte, b2: Byte, b3: Byte): (v: int)
    ensures 0 <= v < 0x1_0000_0000
  {
    b0 + b1 * 0x100 + b2 * 0x1_0000 + b3 * 0x100_0000
  }

  lemma BytesOf(b0: Byte, b1: Byte, b2: Byte, b3: Byte)
    ensures var v := FromBytes(b0, b1, b2, b3);
      ByteOf(v, 0) == b0 && ByteOf(v, 1) == b1 && ByteOf(v, 2) == b2 && ByteOf(v, 3) == b3
  {
    var v := FromBytes(b0, b1, b2, b3);
    Quotient(v, 0x100, b1 + b2 * 0x100 + b3 * 0x1_0000, b0);
    Quotient(v, 0x1_0000, b2 + b3 * 0x100, b0 + b1 * 0x100);
    Quotient(v, 0x100_0000, b3, b0 + b1 * 0x100 + b2 * 0x1_0000);
    Quotient(b1 + b2 * 0x100 + b3 * 0x1_0000, 0x100, b2 + b3 * 0x100, b1);
    Quotient(b2 + b3 * 0x100, 0x100, b3, b2);
  }

  /** The four bytes of an unsigned 32-bit value determine it. */
  lemma FromBytesOf(v: int)
    requires 0 <= v < 0x1_0000_0000
    ensures FromBytes(ByteOf(v, 0), ByteOf(v, 1), ByteOf(v, 2), ByteOf(v, 3)) == v
  {
    hide *;
    var a, b, c := BytesDown(v);
    Digits(v, a, b, c);
  }

  lemma BytesDown(v: int) returns (a: int, b: int, c: int)
    requires 0 <= v < 0x1_0000_0000
    ensures 0 <= v - a * 0x100 < 0x100 && 0 <= a - b * 0x100 < 0x100 && 0 <= b - c * 0x100 < 0x100 && 0 <= c < 0x100
  {
    a := v / 0x100;
    b := a / 0x100;
    c := b / 0x100;
  }

  lemma Digits(v: int, a: int, b: int, c: int)
    requires 0 <= v - a * 0x100 < 0x100 && 0 <= a - b * 0x100 < 0x100 && 0 <= b - c * 0x100 < 0x100 && 0 <= c < 0x100
    ensures FromBytes(ByteOf(v, 0), ByteOf(v, 1), ByteOf(v, 2), ByteOf(v, 3)) == v
  {
    Quotient(v, 0x100, a, v - a * 0x100);
    Quotient(a, 0x100, b, a - b * 0x100);
    Quotient(b, 0x100, c, b - c * 0x100);
    Quotient(v, 0x1_0000, b, v - b * 0x1_0000);
    Quotient(v, 0x100_0000, c, v - c * 0x100_0000);
    Quotient(c, 0x100, 0, c);
  }

  function GetByte(w: Word, k: int): Byte
    requires 0 <= k < 4
  {
    ByteOf(Encode(w), k)
  }

  function SetByte(w: Word, k: int, b: Byte): Word
    requires 0 <= k < 4
  {
    Decode(FromBytes(
      if k == 0 then b else GetByte(w, 0),
      if k == 1 then b else GetByte(w, 1),
      if k == 2 then b else GetByte(w, 2),
      if k == 3 then b else GetByte(w, 3)))
  }

  /** Storing one byte of a word changes that byte and no other. */
  lemma GetSetByte(w: Word, k: int, b: Byte, j: int)
    requires 0 <= k < 4 && 0 <= j < 4
    ensures GetByte(SetByte(w, k, b), j) == if j == k then b else GetByte(w, j)
  {
    hide Encode, Decode, ByteOf, FromBytes;
    var b0 := if k == 0 then b else GetByte(w, 0);
    var b1 := if k == 1 then b else GetByte(w, 1);
    var b2 := if k == 2 then b else GetByte(w, 2);
    var b3 := if k == 3 then b else GetByte(w, 3);
    DecodeEncode(FromBytes(b0, b1, b2, b3));
    BytesOf(b0, b1, b2, b3);
  }

  lemma ZeroByte(k: int)
    requires 0 <= k < 4
    ensures GetByte(ZERO, k) == 0
  {
    hide *;
    ZeroEncodes();
    ZeroValueByte(Encode(ZERO), k);
    ByteDefinition(ZERO, k);
  }

  lemma ByteDefinition(w: Word, k: int)
    requires 0 <= k < 4
    ensures GetByte(w, k) == ByteOf(Encode(w), k)
  {
  }

  lemma ZeroEncodes()
    ensures Encode(ZERO) == 0
  {
  }

  lemma ZeroValueByte(v: int, k: int)
    requires v == 0 && 0 <= k < 4
    ensures ByteOf(v, k) == 0
  {
    Quotient(v, 0x100, 0, 0);
    Quotient(v, 0x1_0000, 0, 0);
    Quotient(v, 0x100_0000, 0, 0);
  }
}
