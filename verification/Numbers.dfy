/** Printing numbers and reading them back (libc/stdio/printf.c, libc/stdlib/strtol.c, and octal_to_int of
    kernel/arch/i386/initrd.c; C11 sections 7.21.6.1 and 7.22.1.4). */
module Numbers {
  import opened Arith

  const INT_MAX := 0x7FFF_FFFF
  const INT_MIN := -0x8000_0000
  const BUFFER: nat := 32

  // ---- the text of a number -----------------------------------------------------------------------------------

  function Digit(d: int, upper: bool): char
    requires 0 <= d < 16
  {
    if d < 10 then '0' + d as char else (if upper then 'A' else 'a') + (d - 10) as char
  }

  /** The digits of v, least significant first; none for zero. */
  function Low(v: nat, base: nat, upper: bool): seq<char>
    requires 2 <= base <= 16
  {
    if v == 0 then [] else [Digit(v % base, upper)] + Low(v / base, base, upper)
  }

  /** The usual text of v, most significant digit first. */
  function Text(v: nat, base: nat, upper: bool): (r: seq<char>)
    requires 2 <= base <= 16
    ensures |r| > 0
  {
    if v < base then [Digit(v, upper)] else Text(v / base, base, upper) + [Digit(v % base, upper)]
  }

  function SignedText(v: nat, base: nat, upper: bool, negative: bool): seq<char>
    requires 2 <= base <= 16
  {
    (if negative then ['-'] else []) + Text(v, base, upper)
  }

  function Reverse(s: seq<char>): (r: seq<char>)
    ensures |r| == |s| && forall i :: 0 <= i < |s| ==> r[i] == s[|s| - 1 - i]
  {
    if s == [] then [] else Reverse(s[1..]) + [s[0]]
  }

  lemma {:induction false} ReversedLow(v: nat, base: nat, upper: bool)
    requires 2 <= base <= 16 && v > 0
    ensures Reverse(Low(v, base, upper)) == Text(v, base, upper)
  {
    var q := v / base;
    Smaller(v, base);
    assert Low(v, base, upper)[1..] == Low(q, base, upper);
    if v < base {
      assert Low(q, base, upper) == [];
    } else {
      ReversedLow(q, base, upper);
    }
  }

  lemma Smaller(v: nat, base: nat)
    requires 2 <= base && v > 0
    ensures v / base < v && v == v / base * base + v % base && 0 <= v % base < base
    ensures v < base <==> v / base == 0
    ensures v < base ==> v % base == v
  {
    var q, r := v / base, v % base;
    assert v == q * base + r;
    if q >= 1 {
      Product(q, base);
    }
  }

  lemma Product(q: nat, base: nat)
    requires q >= 1 && base >= 2
    ensures q * base >= base && q * base >= q + q
  {
  }

  function Pow8(k: nat): nat
  {
    if k == 0 then 1 else 8 * Pow8(k - 1)
  }

  lemma {:induction false} LowLength(v: nat, base: nat, upper: bool, k: nat)
    requires 8 <= base <= 16 && v < Pow8(k)
    ensures |Low(v, base, upper)| <= k
  {
    hide Low;
    LowCount(v, base, upper);
    if v > 0 {
      EighthOrLess(v, base);
      LowLength(v / base, base, upper, k - 1);
    }
  }

  lemma LowCount(v: nat, base: nat, upper: bool)
    requires 8 <= base <= 16
    ensures v == 0 ==> Low(v, base, upper) == []
    ensures v > 0 ==> |Low(v, base, upper)| == 1 + |Low(v / base, base, upper)|
  {
  }

  lemma EighthOrLess(v: nat, base: nat)
    requires 8 <= base
    ensures v / base * 8 <= v
  {
    var q := v / base;
    assert v == q * base + v % base;
    assert q * base >= q * 8 by { Widen(q, base); }
  }

  lemma Widen(q: nat, base: nat)
    requires 8 <= base
    ensures q * base >= q * 8
  {
  }

  /** A 64-bit value with a sign takes at most 23 characters in base 8 and up, so the 32-byte buffer is ample. */
  lemma BufferSuffices(v: nat, base: nat, upper: bool, negative: bool)
    requires 8 <= base <= 16 && v < WORD * WORD
    ensures |SignedText(v, base, upper, negative)| <= 23 < BUFFER
  {
    assert Pow8(22) == 0x4_0000_0000_0000_0000 by {
      assert Pow8(4) == 4096;
      assert Pow8(8) == 4096 * 4096;
      assert Pow8(12) == 4096 * 4096 * 4096;
      assert Pow8(16) == 4096 * 4096 * 4096 * 4096;
      assert Pow8(20) == 4096 * 4096 * 4096 * 4096 * 4096;
    }
    LowLength(v, base, upper, 22);
    if v > 0 {
      ReversedLow(v, base, upper);
    }
  }

  /** Where characters go: an emitter that may refuse from some point on. */
  class Sink {
    var out: seq<char>
    const room: nat

    constructor (room: nat)
      ensures out == [] && this.room == room
    {
      out := [];
      this.room := room;
    }

    method Emit(c: char) returns (ok: bool)
      modifies this
      ensures ok <==> |old(out)| < room
      ensures out == if ok then old(out) + [c] else old(out)
    {
      ok := |out| < room;
      if ok {
        out := out + [c];
      }
    }

    /** `print`: stops at the first refusal. */
    method Print(data: seq<char>) returns (ok: bool)
      modifies this
      ensures ok <==> data == [] || |old(out)| + |data| <= room
      ensures old(out) <= out <= old(out) + data
      ensures ok ==> out == old(out) + data
    {
      for i := 0 to |data|
        invariant out == old(out) + data[..i]
        invariant i > 0 ==> |out| <= room
      {
        ok := Emit(data[i]);
        if !ok {
          return false;
        }
        assert data[..i + 1] == data[..i] + [data[i]];
      }
      assert data[..|data|] == data;
      return true;
    }
  }

  /** `print_number` */
  method PrintNumber(sink: Sink, value: nat, base: nat, upper: bool, negative: bool, written: int, maxrem: int)
    returns (ok: bool, written': int)
    requires 8 <= base <= 16 && value < WORD * WORD
    modifies sink
    ensures var text := SignedText(value, base, upper, negative);
      && (ok <==> |text| <= maxrem && |old(sink.out)| + |text| <= sink.room)
      && (ok ==> sink.out == old(sink.out) + text && written' == written + |text|)
      && (!ok ==> old(sink.out) <= sink.out <= old(sink.out) + text && written' == written)
      && (|text| > maxrem ==> sink.out == old(sink.out))
  {
    hide Text, Reverse;
    BufferSuffices(value, base, upper, negative);
    ghost var text := SignedText(value, base, upper, negative);
    var buf, i := WriteLow(value, base, upper);
    if negative {
      ReverseLast(buf[..i], '-');
      buf[i] := '-';
      i := i + 1;
      assert buf[..i] == buf[..i - 1] + ['-'];
    }
    assert Reverse(buf[..i]) == text;
    if maxrem < i {
      return false, written;
    }
    ReverseInPlace(buf, i);
    ok := sink.Print(buf[..i]);
    written' := if ok then written + i else written;
  }

  lemma ReverseLast(low: seq<char>, c: char)
    ensures Reverse(low + [c]) == [c] + Reverse(low)
  {
    hide Reverse;
    assert forall i :: 0 <= i < |low| ==> (low + [c])[i] == low[i];
    forall k | 0 <= k < |low| + 1
      ensures Reverse(low + [c])[k] == ([c] + Reverse(low))[k]
    {
    }
  }

  /** The digit loop: least significant first, a lone '0' for zero. */
  method WriteLow(value: nat, base: nat, upper: bool) returns (buf: array<char>, i: nat)
    requires 8 <= base <= 16 && value < WORD * WORD
    ensures fresh(buf) && buf.Length == BUFFER && 0 < i <= 22
    ensures Reverse(buf[..i]) == Text(value, base, upper)
  {
    hide Reverse, Low, Text;
    LowFacts(value, base, upper);
    buf := new char[BUFFER](_ => '0');
    i := 0;
    if value == 0 {
      buf[i] := '0';
      i := i + 1;
      assert buf[..1] == ['0'];
      return;
    }
    var v: nat := value;
    while v != 0
      invariant i + |Low(v, base, upper)| == |Low(value, base, upper)| <= 22
      invariant buf[..i] + Low(v, base, upper) == Low(value, base, upper)
      decreases v
    {
      Smaller(v, base);
      LowStep(v, base, upper);
      buf[i] := Digit(v % base, upper);
      assert buf[..i + 1] + Low(v / base, base, upper) == buf[..i] + Low(v, base, upper);
      v, i := v / base, i + 1;
    }
    LowFacts(v, base, upper);
    assert buf[..i] == Low(value, base, upper);
  }

  lemma LowStep(v: nat, base: nat, upper: bool)
    requires 2 <= base <= 16 && v > 0
    ensures Low(v, base, upper) == [Digit(v % base, upper)] + Low(v / base, base, upper)
  {
  }

  lemma LowFacts(v: nat, base: nat, upper: bool)
    requires 8 <= base <= 16 && v < WORD * WORD
    ensures |Low(v, base, upper)| <= 22
    ensures if v == 0 then Low(v, base, upper) == [] && Reverse(['0']) == Text(v, base, upper)
            else |Low(v, base, upper)| > 0 && Reverse(Low(v, base, upper)) == Text(v, base, upper)
  {
    BufferSuffices(v, base, upper, true);
    if v > 0 {
      ReversedLow(v, base, upper);
    }
  }

  method ReverseInPlace(buf: array<char>, n: nat)
    requires n <= buf.Length
    modifies buf
    ensures buf[..n] == Reverse(old(buf[..n]))
  {
    ghost var was := buf[..n];
    for j := 0 to n / 2
      invariant forall k :: 0 <= k < j ==> buf[k] == was[n - 1 - k] && buf[n - 1 - k] == was[k]
      invariant forall k :: j <= k < n - j ==> buf[k] == was[k]
    {
      var t := buf[j];
      buf[j] := buf[n - 1 - j];
      buf[n - 1 - j] := t;
    }
  }

  // ---- reading a number ------------------------------------------------------------------------------------------

  /** A C string: what lies at index i, the terminator past the end. */
  function At(s: seq<char>, i: nat): char
  {
    if i < |s| then s[i] else '\0'
  }

  predicate IsSpace(c: char)
  {
    c == ' ' || c == '\t' || c == '\n' || c == 11 as char || c == 12 as char || c == '\r'
  }

  /** The value of a digit or letter, or 36. */
  function DigitValue(c: char): (d: nat)
    ensures d <= 36
  {
    if '0' <= c <= '9' then (c - '0') as int
    else if 'a' <= c <= 'z' then (c - 'a') as int + 10
    else if 'A' <= c <= 'Z' then (c - 'A') as int + 10
    else 36
  }

  function SkipSpace(s: seq<char>, i: nat): (r: nat)
    requires i <= |s|
    ensures i <= r <= |s|
    decreases |s| - i
  {
    if i < |s| && IsSpace(s[i]) then SkipSpace(s, i + 1) else i
  }

  /** The end of the run of digits of the base that starts at i. */
  function SkipDigits(s: seq<char>, i: nat, base: nat): (r: nat)
    requires i <= |s| && base <= 36
    ensures i <= r <= |s|
    decreases |s| - i
  {
    if i < |s| && DigitValue(s[i]) < base then SkipDigits(s, i + 1, base) else i
  }

  function Value(digits: seq<char>, base: nat): nat
  {
    if digits == [] then 0
    else Value(digits[..|digits| - 1], base) * base + DigitValue(digits[|digits| - 1])
  }

  predicate HexPrefix(s: seq<char>, i: nat)
  {
    At(s, i) == '0' && (At(s, i + 1) == 'x' || At(s, i + 1) == 'X')
  }

  /** The signed 32-bit integer with these low bits. */
  function Wrap(v: int): (w: int)
    ensures INT_MIN <= w <= INT_MAX
  {
    var u := v % WORD;
    if u <= INT_MAX then u else u - WORD
  }

  datatype Number = Number(start: nat, digits: nat, base: nat, end: nat, negative: bool)

  /** How strtol reads a string: where the number and its digits start, in which base, and where they end. */
  function Scan(s: seq<char>, base: nat): (n: Number)
    requires base == 0 || 2 <= base <= 36
    ensures n.digits <= n.end <= |s| && 2 <= n.base <= 36
  {
    var sp := SkipSpace(s, 0);
    var negative := At(s, sp) == '-';
    var i := if At(s, sp) == '-' || At(s, sp) == '+' then sp + 1 else sp;
    if (base == 0 || base == 16) && HexPrefix(s, i) then Number(i, i + 2, 16, SkipDigits(s, i + 2, 16), negative)
    else
      var b := if base == 0 then (if At(s, i) == '0' then 8 else 10) else base;
      Number(i, i, b, SkipDigits(s, i, b), negative)
  }

  function Signed(v: int, negative: bool): int
  {
    if negative then 0 - v else v
  }

  /** The integer the digits denote, before it is squeezed into a `long`. */
  function Denoted(s: seq<char>, n: Number): int
    requires n.digits <= n.end <= |s|
  {
    Signed(Value(s[n.digits..n.end], n.base), n.negative)
  }

  lemma {:induction false} SkipStep(s: seq<char>, i: nat, k: nat, base: nat)
    requires i <= k < |s| && base <= 36 && (forall j :: i <= j <= k ==> DigitValue(s[j]) < base)
    ensures SkipDigits(s, i, base) == SkipDigits(s, k + 1, base)
    decreases k - i
  {
    if i < k {
      SkipStep(s, i + 1, k, base);
    }
  }

  lemma WrapStep(v: int, base: nat, d: nat)
    ensures Wrap(Wrap(v) * base + d) == Wrap(v * base + d)
  {
    var q := v / WORD - (if v % WORD <= INT_MAX then 0 else -1);
    assert Wrap(v) == v - q * WORD;
    assert Wrap(v) * base + d == v * base + d - (q * base) * WORD by { Distribute(v, q, base); }
    SameRest(v * base + d, q * base);
  }

  lemma Distribute(v: int, q: int, base: nat)
    ensures (v - q * WORD) * base == v * base - (q * base) * WORD
  {
  }

  lemma SameRest(x: int, k: int)
    ensures (x - k * WORD) % WORD == x % WORD
  {
    var q, r := x / WORD, x % WORD;
    assert x - k * WORD == (q - k) * WORD + r;
    Rest(x - k * WORD, q - k, r);
  }

  lemma Rest(y: int, q: int, r: int)
    requires y == q * WORD + r && 0 <= r < WORD
    ensures y % WORD == r
  {
  }

  lemma WrapNegative(v: int)
    ensures Wrap(-Wrap(v)) == Wrap(-v)
  {
    var q := v / WORD - (if v % WORD <= INT_MAX then 0 else -1);
    assert Wrap(v) == v - q * WORD;
    SameRest(-v, -q);
  }

  lemma SignApplied(d: int, sign: int)
    requires sign == 1 || sign == -1
    ensures Wrap(sign * Wrap(d)) == Wrap(Signed(d, sign == -1))
  {
    if sign == -1 {
      WrapNegative(d);
      assert sign * Wrap(d) == -Wrap(d);
    } else {
      WrapSmall(Wrap(d));
    }
  }

  /** `strtol`, with the wrap-around of 32-bit arithmetic: the value and the index *endptr points at. */
  method Strtol(s: seq<char>, base: nat) returns (value: int, end: nat)
    requires base == 0 || 2 <= base <= 36
    ensures var n := Scan(s, base);
      && value == Wrap(Denoted(s, n))
      && end == (if n.end == n.digits then 0 else n.end)
  {
    hide Wrap, Value, SkipDigits, IsSpace, SkipSpace, DigitValue;
    ghost var n := Scan(s, base);
    var i := SpaceEnd(s);
    var sign := 1;
    if At(s, i) == '-' {
      sign, i := -1, i + 1;
    } else if At(s, i) == '+' {
      i := i + 1;
    }
    var b := base;
    if (b == 0 || b == 16) && At(s, i) == '0' && (At(s, i + 1) == 'x' || At(s, i + 1) == 'X') {
      i, b := i + 2, 16;
    } else if b == 0 {
      b := if At(s, i) == '0' then 8 else 10;
    }
    var start := i;
    var v;
    v, i := Accumulate(s, start, b);
    end := if i == start then 0 else i;
    SignApplied(Value(s[start..i], b), sign);
    value := Wrap(sign * v);
  }

  method SpaceEnd(s: seq<char>) returns (i: nat)
    ensures i == SkipSpace(s, 0)
  {
    i := 0;
    while IsSpace(At(s, i))
      invariant i <= |s| && SkipSpace(s, 0) == SkipSpace(s, i)
      decreases |s| - i
    {
      i := i + 1;
    }
  }

  /** The digit loop of strtol. */
  method Accumulate(s: seq<char>, start: nat, base: nat) returns (v: int, i: nat)
    requires start <= |s| && base <= 36
    ensures i == SkipDigits(s, start, base) && v == Wrap(Value(s[start..i], base))
  {
    hide Wrap, Value, SkipDigits, DigitValue;
    i := start;
    v := 0;
    NoDigits(s, start, base);
    while i < |s| && DigitValue(s[i]) < base
      invariant start <= i <= |s| && SkipDigits(s, start, base) == SkipDigits(s, i, base)
      invariant v == Wrap(Value(s[start..i], base))
    {
      DigitTaken(s, start, i, base);
      WrapStep(Value(s[start..i], base), base, DigitValue(s[i]));
      v := Wrap(v * base + DigitValue(s[i]));
      i := i + 1;
    }
    DigitsEnd(s, i, base);
  }

  lemma NoDigits(s: seq<char>, start: nat, base: nat)
    requires start <= |s|
    ensures Wrap(Value(s[start..start], base)) == 0
  {
    WrapSmall(0);
  }

  lemma DigitTaken(s: seq<char>, start: nat, i: nat, base: nat)
    requires start <= i < |s| && DigitValue(s[i]) < base <= 36
    ensures SkipDigits(s, i, base) == SkipDigits(s, i + 1, base)
    ensures Value(s[start..i + 1], base) == Value(s[start..i], base) * base + DigitValue(s[i])
  {
    var digits := s[start..i + 1];
    assert digits[..|digits| - 1] == s[start..i];
  }

  lemma DigitsEnd(s: seq<char>, i: nat, base: nat)
    requires i <= |s| && base <= 36 && !(i < |s| && DigitValue(s[i]) < base)
    ensures SkipDigits(s, i, base) == i
  {
  }

  lemma WrapSmall(v: int)
    ensures INT_MIN <= v <= INT_MAX ==> Wrap(v) == v
  {
    if v < 0 && INT_MIN <= v {
      Rest(v, -1, v + WORD);
    }
  }

  // ---- round trips -----------------------------------------------------------------------------------------------

  lemma DigitBack(d: int, upper: bool)
    requires 0 <= d < 16
    ensures DigitValue(Digit(d, upper)) == d && !IsSpace(Digit(d, upper))
    ensures Digit(d, upper) !in {'-', '+', 'x', 'X', '\0'}
  {
  }

  lemma {:induction false} TextBack(v: nat, base: nat, upper: bool)
    requires 2 <= base <= 16
    ensures Value(Text(v, base, upper), base) == v
    ensures forall i :: 0 <= i < |Text(v, base, upper)| ==>
      var c := Text(v, base, upper)[i];
      DigitValue(c) < base && !IsSpace(c) && c !in {'-', '+', 'x', 'X', '\0'}
  {
    if v < base {
      DigitBack(v, upper);
      assert Text(v, base, upper)[..0] == [];
    } else {
      Smaller(v, base);
      TextBack(v / base, base, upper);
      DigitBack(v % base, upper);
      var t := Text(v, base, upper);
      assert t[..|t| - 1] == Text(v / base, base, upper);
    }
  }

  /** What print_number prints, strtol reads: the whole text, and the number that was printed. */
  lemma PrintThenScan(v: nat, base: nat, upper: bool, negative: bool)
    requires 2 <= base <= 16
    ensures var s := SignedText(v, base, upper, negative);
      var n := Scan(s, base);
      n.end == |s| && n.end != n.digits && Denoted(s, n) == Signed(v, negative)
  {
    hide Text, Value, SkipDigits, HexPrefix, DigitValue, IsSpace;
    var t := Text(v, base, upper);
    var s := SignedText(v, base, upper, negative);
    TextBack(v, base, upper);
    var i: nat := if negative then 1 else 0;
    assert forall j :: i <= j < |s| ==> s[j] == t[j - i];
    assert !IsSpace(s[0]) by { MinusIsNoSpace(); }
    SkipStep(s, i, |s| - 1, base);
    SkipEnd(s, base);
    assert s[i..|s|] == t;
    NoPrefix(s, i);
  }

  lemma MinusIsNoSpace()
    ensures !IsSpace('-')
  {
  }

  lemma SkipEnd(s: seq<char>, base: nat)
    requires base <= 36
    ensures SkipDigits(s, |s|, base) == |s|
  {
  }

  lemma NoPrefix(s: seq<char>, i: nat)
    requires i < |s| && (forall j :: i <= j < |s| ==> s[j] !in {'x', 'X'})
    ensures !HexPrefix(s, i)
  {
  }

  /** The text printed for every signed 32-bit integer comes back as that integer. */
  lemma SignedRoundTrip(x: int, base: nat, upper: bool)
    requires INT_MIN <= x <= INT_MAX && 2 <= base <= 16
    ensures var s := SignedText(if x < 0 then -x else x, base, upper, x < 0);
      Wrap(Denoted(s, Scan(s, base))) == x && Scan(s, base).end == |s|
  {
    PrintThenScan(if x < 0 then -x else x, base, upper, x < 0);
    WrapSmall(x);
  }

  // ---- how strtol reads an ordinary text --------------------------------------------------------------------------

  predicate Blank(c: char)
  {
    c in " \t\n\r" || c as int == 0x0B || c as int == 0x0C
  }

  /** A digit of the base, as C11 section 7.22.1.4 counts them: 0 to 9, then a to z or A to Z. */
  predicate DigitOf(c: char, base: nat)
  {
    || ('0' <= c <= '9' && c as int - '0' as int < base)
    || ('a' <= c <= 'z' && c as int - 'a' as int + 10 < base)
    || ('A' <= c <= 'Z' && c as int - 'A' as int + 10 < base)
  }

  /** The base of a text: what the prefix says, or what the caller says, or octal after a leading zero, or decimal. */
  function BaseOf(base: nat, prefix: seq<char>, digits: seq<char>): nat
  {
    if prefix != "" then 16 else if base != 0 then base else if digits != "" && digits[0] == '0' then 8 else 10
  }

  /** Blanks, a sign, a hexadecimal prefix, digits, and whatever ends them. */
  predicate Ordinary(base: nat, blanks: seq<char>, sign: seq<char>, prefix: seq<char>, digits: seq<char>,
                     rest: seq<char>)
  {
    var b := BaseOf(base, prefix, digits);
    && (base == 0 || 2 <= base <= 36)
    && (forall i :: 0 <= i < |blanks| ==> Blank(blanks[i]))
    && (sign == "" || sign == "+" || sign == "-")
    && (prefix == "" || ((prefix == "0x" || prefix == "0X") && (base == 0 || base == 16)))
    && (forall i :: 0 <= i < |digits| ==> DigitOf(digits[i], b))
    && (rest != "" ==> !DigitOf(rest[0], b))
    // Without a prefix the text must not look as if it had one, nor as if it had blanks or a sign.
    && (prefix == "" && (base == 0 || base == 16) && digits == "0" && rest != "" ==> rest[0] !in "xX")
    && (prefix + digits == "" && rest != "" ==> sign != "" || (!Blank(rest[0]) && rest[0] !in "+-"))
  }

  lemma CharClasses(c: char, base: nat)
    requires base <= 36
    ensures IsSpace(c) <==> Blank(c)
    ensures DigitValue(c) < base <==> DigitOf(c, base)
    ensures DigitOf(c, base) ==> !Blank(c) && c !in "+-"
    ensures DigitOf(c, base) && base <= 16 ==> c !in "xX"
  {
  }

  lemma {:induction false} BlanksSkipped(s: seq<char>, i: nat, k: nat)
    requires i <= k <= |s| && (forall j :: i <= j < k ==> Blank(s[j])) && (k < |s| ==> !Blank(s[k]))
    ensures SkipSpace(s, i) == k
    decreases k - i
  {
    if i < |s| {
      CharClasses(s[i], 0);
      if i < k {
        BlanksSkipped(s, i + 1, k);
      }
    }
  }

  lemma {:induction false} DigitsSkipped(s: seq<char>, i: nat, k: nat, base: nat)
    requires i <= k <= |s| && base <= 36
    requires (forall j :: i <= j < k ==> DigitOf(s[j], base)) && (k < |s| ==> !DigitOf(s[k], base))
    ensures SkipDigits(s, i, base) == k
    decreases k - i
  {
    if i < |s| {
      CharClasses(s[i], base);
      if i < k {
        DigitsSkipped(s, i + 1, k, base);
      }
    }
  }

  /** strtol reads the digits of an ordinary text in its base, with its sign, and stops where they end; it has read
      nothing exactly when there are none. */
  lemma OrdinaryRead(base: nat, blanks: seq<char>, sign: seq<char>, prefix: seq<char>, digits: seq<char>,
                     rest: seq<char>)
    requires Ordinary(base, blanks, sign, prefix, digits, rest)
    ensures var s := blanks + sign + prefix + digits + rest;
      var n := Scan(s, base);
      && n.end == |s| - |rest| && (n.end == n.digits <==> digits == "")
      && Denoted(s, n) ==
        (if sign == "-" then 0 - Value(digits, BaseOf(base, prefix, digits))
         else Value(digits, BaseOf(base, prefix, digits)))
  {
    hide DigitValue, IsSpace, SkipSpace, SkipDigits, Value, Ordinary, HexPrefix;
    var s := blanks + sign + prefix + digits + rest;
    var d := |blanks| + |sign| + |prefix|;
    BlanksEnd(base, blanks, sign, prefix, digits, rest);
    PrefixAt(base, blanks, sign, prefix, digits, rest);
    DigitsRead(base, blanks, sign, prefix, digits, rest);
    assert s[d..d + |digits|] == digits;
  }

  lemma BlanksEnd(base: nat, blanks: seq<char>, sign: seq<char>, prefix: seq<char>, digits: seq<char>, rest: seq<char>)
    requires Ordinary(base, blanks, sign, prefix, digits, rest)
    ensures var s := blanks + sign + prefix + digits + rest;
      && SkipSpace(s, 0) == |blanks|
      && (At(s, |blanks|) == '-' <==> sign == "-") && (At(s, |blanks|) == '+' <==> sign == "+")
    ensures |sign| == (if sign == "-" || sign == "+" then 1 else 0) && 2 <= BaseOf(base, prefix, digits) <= 36
  {
    hide IsSpace, SkipSpace, Blank, DigitOf, DigitValue;
    var s := blanks + sign + prefix + digits + rest;
    var i := |blanks|;
    Parts(blanks, sign, prefix, digits, rest);
    Signs();
    if i < |s| {
      CharClasses(s[i], BaseOf(base, prefix, digits));
    }
    BlanksSkipped(s, 0, i);
  }

  lemma PrefixAt(base: nat, blanks: seq<char>, sign: seq<char>, prefix: seq<char>, digits: seq<char>, rest: seq<char>)
    requires Ordinary(base, blanks, sign, prefix, digits, rest)
    ensures var s, j := blanks + sign + prefix + digits + rest, |blanks| + |sign|;
      && (base == 0 || base == 16 ==> (HexPrefix(s, j) <==> prefix != ""))
      && (base == 0 && prefix == "" ==> (At(s, j) == '0' <==> digits != "" && digits[0] == '0'))
      && |prefix| == (if prefix == "" then 0 else 2) && (prefix != "" ==> base == 0 || base == 16)
  {
    hide IsSpace, SkipSpace, Blank, DigitOf, DigitValue;
    var s, j := blanks + sign + prefix + digits + rest, |blanks| + |sign|;
    var b := BaseOf(base, prefix, digits);
    Parts(blanks, sign, prefix, digits, rest);
    Zero(b);
    if j + 1 < |s| {
      CharClasses(s[j + 1], b);
    }
  }

  lemma Zero(base: nat)
    requires base >= 1
    ensures DigitOf('0', base)
  {
  }

  lemma DigitsRead(base: nat, blanks: seq<char>, sign: seq<char>, prefix: seq<char>, digits: seq<char>, rest: seq<char>)
    requires Ordinary(base, blanks, sign, prefix, digits, rest)
    ensures var s, d := blanks + sign + prefix + digits + rest, |blanks| + |sign| + |prefix|;
      SkipDigits(s, d, BaseOf(base, prefix, digits)) == d + |digits|
  {
    hide IsSpace, SkipDigits, Blank, DigitOf, DigitValue;
    var d := |blanks| + |sign| + |prefix|;
    Parts(blanks, sign, prefix, digits, rest);
    DigitsSkipped(blanks + sign + prefix + digits + rest, d, d + |digits|, BaseOf(base, prefix, digits));
  }

  lemma Signs()
    ensures !Blank('-') && !Blank('+') && !Blank('0')
  {
  }

  /** Where the parts of a text stand. */
  lemma Parts(blanks: seq<char>, sign: seq<char>, prefix: seq<char>, digits: seq<char>, rest: seq<char>)
    ensures var s := blanks + sign + prefix + digits + rest;
      var j := |blanks| + |sign|;
      var d := j + |prefix|;
      && (forall k :: 0 <= k < |blanks| ==> s[k] == blanks[k])
      && (forall k :: |blanks| <= k < j ==> s[k] == sign[k - |blanks|])
      && (forall k :: j <= k < d ==> s[k] == prefix[k - j])
      && (forall k :: d <= k < d + |digits| ==> s[k] == digits[k - d])
      && (rest != "" ==> d + |digits| < |s| && s[d + |digits|] == rest[0])
      && |s| == d + |digits| + |rest|
  {
  }

  /** The value strtol returns has the low 32 bits of the number read. */
  lemma WrapCongruent(v: int)
    ensures (v - Wrap(v)) % WORD == 0
  {
    var q := v / WORD - (if v % WORD <= INT_MAX then 0 else -1);
    assert Wrap(v) == v - q * WORD;
    Rest(v - Wrap(v), q, 0);
  }

  // ---- where strtol departs from C11 ------------------------------------------------------------------------------

  /** The end of the subject sequence of C11: a hexadecimal prefix belongs to it only with a digit behind it. */
  function StandardEnd(s: seq<char>, base: nat): nat
    requires base == 0 || 2 <= base <= 36
  {
    var n := Scan(s, base);
    if n.digits == n.start then (if n.end == n.digits then 0 else n.end)
    else if n.end == n.digits then n.start + 1
    else n.end
  }

  /** C11 clamps a number that does not fit. */
  function Clamp(v: int): int
  {
    if v > INT_MAX then INT_MAX else if v < INT_MIN then INT_MIN else v
  }

  /** *endptr is what the standard asks for exactly when the text is not a bare hexadecimal prefix. */
  lemma EndConformsIff(s: seq<char>, base: nat)
    requires base == 0 || 2 <= base <= 36
    ensures var n := Scan(s, base);
      (if n.end == n.digits then 0 else n.end) == StandardEnd(s, base) <==>
        !((base == 0 || base == 16) && HexPrefix(s, n.start) && DigitValue(At(s, n.start + 2)) >= 16)
  {
    var n := Scan(s, base);
    assert SkipDigits(s, n.digits, n.base) == n.end;
  }

  /** The value is what the standard asks for exactly when the number fits, or wraps onto the clamped value. */
  lemma ValueConformsIff(v: int)
    ensures Wrap(v) == Clamp(v) <==>
      INT_MIN <= v <= INT_MAX || (v > INT_MAX && v % WORD == INT_MAX) || (v < INT_MIN && v % WORD == INT_MAX + 1)
  {
  }

  /** Two inputs on which strtol and the standard differ: a bare prefix, and 2^32. */
  lemma StrtolDeparts()
    ensures StandardEnd("0x", 16) == 1 && Scan("0x", 16).end == Scan("0x", 16).digits
    ensures var s := "1" + seq(8, _ => '0');
      Denoted(s, Scan(s, 16)) == WORD && Wrap(WORD) == 0 && Clamp(WORD) == INT_MAX
  {
    hide Text, Value, Scan;
    BarePrefix();
    SixteenText(8);
    SixteenPower();
    PrintThenScan(WORD, 16, false, false);
    assert SignedText(WORD, 16, false, false) == Text(WORD, 16, false);
  }

  lemma BarePrefix()
    ensures StandardEnd("0x", 16) == 1 && Scan("0x", 16).end == Scan("0x", 16).digits
  {
  }

  lemma SixteenPower()
    ensures Pow16(8) == WORD
  {
    assert Pow16(4) == 0x1_0000;
  }

  function Pow16(k: nat): nat
  {
    if k == 0 then 1 else 16 * Pow16(k - 1)
  }

  lemma {:induction false} SixteenText(k: nat)
    ensures Text(Pow16(k), 16, false) == "1" + seq(k, _ => '0')
  {
    if k > 0 {
      SixteenText(k - 1);
      assert Pow16(k) / 16 == Pow16(k - 1) && Pow16(k) % 16 == 0;
      assert "1" + seq(k - 1, _ => '0') + ['0'] == "1" + seq(k, _ => '0');
    }
  }

  // ---- octal fields -----------------------------------------------------------------------------------------------

  predicate Octal(c: char)
  {
    '0' <= c <= '7'
  }

  /** The run of octal digits a field begins with. */
  function OctalPrefix(s: seq<char>, n: nat): (p: seq<char>)
    requires n <= |s|
    ensures |p| <= n && p <= s && (forall i :: 0 <= i < |p| ==> Octal(p[i])) && (|p| < n ==> !Octal(s[|p|]))
  {
    if n == 0 || !Octal(s[0]) then []
    else [s[0]] + OctalPrefix(s[1..], n - 1)
  }

  /** `octal_to_int` */
  method OctalToInt(s: seq<char>, len: nat) returns (v: int)
    requires len <= |s|
    ensures v == Value(OctalPrefix(s, len), 8) % WORD
  {
    hide OctalPrefix;
    v := 0;
    var i := 0;
    ghost var p := OctalPrefix(s, len);
    assert p == s[..|p|];
    while i < len && '0' <= s[i] <= '7'
      invariant i <= |p| && v == Value(s[..i], 8) % WORD
    {
      assert s[..i + 1][..i] == s[..i];
      ghost var w := Value(s[..i], 8);
      EightfoldRest(w, (s[i] - '0') as int);
      v := (v * 8 + (s[i] - '0') as int) % WORD;
      i := i + 1;
    }
  }

  lemma EightfoldRest(w: nat, d: nat)
    ensures (w % WORD * 8 + d) % WORD == (w * 8 + d) % WORD
  {
    var q := w / WORD;
    SameRest(w * 8 + d, 8 * q);
  }

  lemma {:induction false} ZeroPadding(k: nat, digits: seq<char>)
    ensures Value(seq(k, _ => '0') + digits, 8) == Value(digits, 8)
    decreases |digits| + k
  {
    var s := seq(k, _ => '0') + digits;
    if digits == [] {
      if k > 0 {
        assert s[..|s| - 1] == seq(k - 1, _ => '0') + [];
        ZeroPadding(k - 1, []);
      }
    } else {
      assert s[..|s| - 1] == seq(k, _ => '0') + digits[..|digits| - 1];
      ZeroPadding(k, digits[..|digits| - 1]);
    }
  }

  lemma {:induction false} OctalPrefixIs(s: seq<char>, n: nat, p: seq<char>)
    requires n <= |s| && |p| < n && p <= s && (forall i :: 0 <= i < |p| ==> Octal(p[i])) && !Octal(s[|p|])
    ensures OctalPrefix(s, n) == p
  {
    if p != [] {
      OctalPrefixIs(s[1..], n - 1, p[1..]);
    }
  }

  lemma {:induction false} TextOctal(v: nat)
    ensures forall i :: 0 <= i < |Text(v, 8, false)| ==> Octal(Text(v, 8, false)[i])
  {
    if v >= 8 {
      TextOctal(v / 8);
    }
  }

  /** octal_to_int inverts the base-8 output, in a zero-padded field that ends in a byte that is no octal digit. */
  lemma OctalRoundTrip(v: nat, k: nat, last: char, len: nat)
    requires v < WORD && !Octal(last) && len == k + |Text(v, 8, false)| + 1
    ensures var field := seq(k, _ => '0') + Text(v, 8, false) + [last];
      |field| == len && Value(OctalPrefix(field, len), 8) % WORD == v
  {
    var p := seq(k, _ => '0') + Text(v, 8, false);
    TextOctal(v);
    OctalPrefixIs(p + [last], len, p);
    ZeroPadding(k, Text(v, 8, false));
    TextBack(v, 8, false);
  }
}
