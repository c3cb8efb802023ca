/** Formatted output (libc/stdio/printf.c, __vprintf_gen). Flags and widths are read and ignored. */
module Printf {
  import opened Arith
  import opened Numbers

  /** One variable argument: a 32-bit word, or a string. */
  datatype Arg = Num(v: int) | Str(s: seq<char>)

  predicate IsFlag(c: char)
  {
    c == '-' || c == '+' || c == ' ' || c == '#' || c == '0'
  }

  predicate IsDigit(c: char)
  {
    '0' <= c <= '9'
  }

  function SkipFlags(fmt: seq<char>, i: nat): (r: nat)
    requires i <= |fmt|
    ensures i <= r <= |fmt|
    decreases |fmt| - i
  {
    if i < |fmt| && IsFlag(fmt[i]) then SkipFlags(fmt, i + 1) else i
  }

  function SkipWidth(fmt: seq<char>, i: nat): (r: nat)
    requires i <= |fmt|
    ensures i <= r <= |fmt|
    decreases |fmt| - i
  {
    if i < |fmt| && IsDigit(fmt[i]) then SkipWidth(fmt, i + 1) else i
  }

  /** The end of the stretch of ordinary characters that starts before i. */
  function PlainEnd(fmt: seq<char>, i: nat): (r: nat)
    requires i <= |fmt|
    ensures i <= r <= |fmt|
    decreases |fmt| - i
  {
    if i < |fmt| && fmt[i] != '%' then PlainEnd(fmt, i + 1) else i
  }

  predicate IsConversion(c: char)
  {
    c in {'c', 's', 'd', 'i', 'u', 'x', 'X', 'o', 'p'}
  }

  /** An argument a conversion can take. */
  predicate Takes(c: char, arg: Arg)
  {
    if c == 's' then arg.Str? else arg.Num? && 0 <= arg.v < WORD
  }

  /** The text of an argument under a conversion. */
  function Converted(c: char, arg: Arg): seq<char>
    requires IsConversion(c) && Takes(c, arg)
  {
    if c == 's' then arg.s
    else if c == 'c' then [(arg.v % 256) as char]
    else if c == 'd' || c == 'i' then
      SignedText(if Wrap(arg.v) < 0 then -Wrap(arg.v) else Wrap(arg.v), 10, false, Wrap(arg.v) < 0)
    else if c == 'u' then Text(arg.v, 10, false)
    else if c == 'x' then Text(arg.v, 16, false)
    else if c == 'X' then Text(arg.v, 16, true)
    else if c == 'o' then Text(arg.v, 8, false)
    else "0x" + Text(arg.v, 16, false)
  }

  /** Whether position i starts a stretch of ordinary characters (an escaped percent sign included). */
  predicate Plain(fmt: seq<char>, i: nat)
    requires i < |fmt|
  {
    fmt[i] != '%' || At(fmt, i + 1) == '%'
  }

  function ConversionAt(fmt: seq<char>, i: nat): (r: nat)
    requires i < |fmt|
    ensures i < r <= |fmt|
  {
    SkipWidth(fmt, SkipFlags(fmt, i + 1))
  }

  /** The arguments are there, and of the right kind, for every conversion from position i on. */
  predicate Fits(fmt: seq<char>, i: nat, args: seq<Arg>)
    requires i <= |fmt|
    decreases |fmt| - i
  {
    if i == |fmt| then true
    else if Plain(fmt, i) then Fits(fmt, PlainEnd(fmt, Start(fmt, i) + 1), args)
    else
      var m := ConversionAt(fmt, i);
      if IsConversion(At(fmt, m)) then args != [] && m < |fmt| && Takes(fmt[m], args[0]) && Fits(fmt, m + 1, args[1..])
      else true
  }

  /** Where the text of a plain stretch starts: behind the first of two percent signs. */
  function Start(fmt: seq<char>, i: nat): (j: nat)
    requires i < |fmt| && Plain(fmt, i)
    ensures i <= j < |fmt|
  {
    if fmt[i] == '%' then i + 1 else i
  }

  /** Everything the format prints from position i on. A conversion it does not know prints itself and the rest. */
  function Rendered(fmt: seq<char>, i: nat, args: seq<Arg>): seq<char>
    requires i <= |fmt| && Fits(fmt, i, args)
    decreases |fmt| - i
  {
    if i == |fmt| then []
    else if Plain(fmt, i) then
      var j := Start(fmt, i);
      fmt[j..PlainEnd(fmt, j + 1)] + Rendered(fmt, PlainEnd(fmt, j + 1), args)
    else
      var m := ConversionAt(fmt, i);
      if IsConversion(At(fmt, m)) then Converted(fmt[m], args[0]) + Rendered(fmt, m + 1, args[1..])
      else fmt[i..]
  }

  // ---- the method -----------------------------------------------------------------------------------------------

  /** `print`, after the test that the count stays within an int. */
  method PrintText(sink: Sink, text: seq<char>, written: nat) returns (ok: bool)
    requires written <= INT_MAX
    modifies sink
    ensures ok <==> written + |text| <= INT_MAX && (text == [] || |old(sink.out)| + |text| <= sink.room)
    ensures old(sink.out) <= sink.out <= old(sink.out) + text
    ensures ok ==> sink.out == old(sink.out) + text
  {
    if INT_MAX - written < |text| {
      return false;
    }
    ok := sink.Print(text);
  }

  /** One conversion, and how many characters it printed. */
  method Convert(sink: Sink, c: char, arg: Arg, written: nat) returns (ok: bool, count: nat)
    requires IsConversion(c) && Takes(c, arg) && written <= INT_MAX
    modifies sink
    ensures var text := Converted(c, arg);
      && (ok <==> written + |text| <= INT_MAX && (text == [] || |old(sink.out)| + |text| <= sink.room))
      && old(sink.out) <= sink.out <= old(sink.out) + text
      && (ok ==> sink.out == old(sink.out) + text && count == |text|)
  {
    hide Text;
    var maxrem := INT_MAX - written;
    count := 0;
    if c == 's' {
      ok := PrintText(sink, arg.s, written);
      count := |arg.s|;
    } else if c == 'c' {
      if maxrem == 0 {
        return false, 0;
      }
      ok := sink.Print([(arg.v % 256) as char]);
      count := 1;
    } else if c == 'd' || c == 'i' {
      var value := Wrap(arg.v);
      var negative := value < 0;
      ok, count := Number(sink, if negative then -value else value, 10, false, negative, written);
    } else if c == 'u' {
      ok, count := Number(sink, arg.v, 10, false, false, written);
    } else if c == 'x' || c == 'X' {
      ok, count := Number(sink, arg.v, 16, c == 'X', false, written);
    } else if c == 'o' {
      ok, count := Number(sink, arg.v, 8, false, false, written);
    } else {
      ok, count := Pointer(sink, arg.v, written);
    }
  }

  /** "%p": the prefix, then the number in the room that is left. */
  method Pointer(sink: Sink, value: nat, written: nat) returns (ok: bool, count: nat)
    requires value < WORD && written <= INT_MAX
    modifies sink
    ensures var text := "0x" + Text(value, 16, false);
      && (ok <==> written + |text| <= INT_MAX && |old(sink.out)| + |text| <= sink.room)
      && old(sink.out) <= sink.out <= old(sink.out) + text
      && (ok ==> sink.out == old(sink.out) + text && count == |text|)
  {
    hide Text;
    count := 0;
    ghost var before := sink.out;
    if INT_MAX - written < 2 {
      return false, 0;
    }
    ok := sink.Print("0x");
    if ok {
      ok, count := Number(sink, value, 16, false, false, written + 2);
      count := count + 2;
    }
    Prefixes(before, sink.out, "0x", Text(value, 16, false));
  }

  lemma Prefixes(before: seq<char>, now: seq<char>, a: seq<char>, b: seq<char>)
    ensures before <= now <= before + a ==> now <= before + (a + b)
    ensures before + a <= now <= before + a + b ==> now <= before + (a + b)
    ensures before + a + b == before + (a + b)
  {
    assert before + a + b == before + (a + b);
  }

  method Number(sink: Sink, value: nat, base: nat, upper: bool, negative: bool, written: nat)
    returns (ok: bool, count: nat)
    requires 8 <= base <= 16 && value < WORD && written <= INT_MAX
    modifies sink
    ensures var text := SignedText(value, base, upper, negative);
      && (ok <==> written + |text| <= INT_MAX && |old(sink.out)| + |text| <= sink.room)
      && old(sink.out) <= sink.out <= old(sink.out) + text
      && (ok ==> sink.out == old(sink.out) + text && count == |text|)
  {
    hide Text;
    var w;
    ok, w := PrintNumber(sink, value, base, upper, negative, written, INT_MAX - written);
    count := w - written;
  }

  /** `__vprintf_gen`: the number of characters, all of them printed; or -1, with only a part printed, when there are
      more than an int counts or the emitter refuses. */
  method VprintfGen(sink: Sink, fmt: seq<char>, args: seq<Arg>) returns (r: int)
    requires '\0' !in fmt && Fits(fmt, 0, args)
    modifies sink
    ensures var text := Rendered(fmt, 0, args);
      && (r != -1 <==> |text| <= INT_MAX && (text == [] || |old(sink.out)| + |text| <= sink.room))
      && (r != -1 ==> r == |text| && sink.out == old(sink.out) + text)
      && old(sink.out) <= sink.out <= old(sink.out) + text
  {
    hide Text, Converted, IsConversion, Takes, Fits, Rendered, PlainEnd, SkipFlags, SkipWidth;
    ghost var out0, all := sink.out, Rendered(fmt, 0, args);
    var i: nat, used: nat, written: nat := 0, 0, 0;
    ghost var done: seq<char> := [];
    assert args[0..] == args;
    while i < |fmt|
      invariant i <= |fmt| && used <= |args| && Fits(fmt, i, args[used..])
      invariant sink.out == out0 + done && written == |done| <= INT_MAX
      invariant done == [] || |out0| + |done| <= sink.room
      invariant done + Rendered(fmt, i, args[used..]) == all
      decreases |fmt| - i
    {
      ghost var text;
      var ok, next, taken, count;
      ok, next, taken, count, text := PrintPiece(sink, fmt, i, args, used, written);
      Progress(out0, done, text, Rendered(fmt, next, args[used + taken..]), sink.out, all);
      if !ok {
        return -1;
      }
      done, written := done + text, written + count;
      i, used := next, used + taken;
    }
    RenderEnd(fmt, args[used..]);
    r := written;
  }

  /** One turn of the loop: a plain stretch, a conversion, or the rest of a format that cannot be understood. */
  method PrintPiece(sink: Sink, fmt: seq<char>, i: nat, args: seq<Arg>, used: nat, written: nat)
    returns (ok: bool, next: nat, taken: nat, count: nat, ghost text: seq<char>)
    requires i < |fmt| && used <= |args| && Fits(fmt, i, args[used..]) && written <= INT_MAX
    modifies sink
    ensures i < next <= |fmt| && used + taken <= |args| && Fits(fmt, next, args[used + taken..])
    ensures Rendered(fmt, i, args[used..]) == text + Rendered(fmt, next, args[used + taken..])
    ensures ok <==> written + |text| <= INT_MAX && (text == [] || |old(sink.out)| + |text| <= sink.room)
    ensures old(sink.out) <= sink.out <= old(sink.out) + text
    ensures ok ==> sink.out == old(sink.out) + text && count == |text|
  {
    hide Text, Converted, IsConversion, Takes, Fits, Rendered, PlainEnd, SkipFlags, SkipWidth;
    RenderStep(fmt, i, args[used..]);
    assert args[used..][0..] == args[used..] == args[used + 0..];
    if Plain(fmt, i) {
      var j := Start(fmt, i);
      next := PlainStretch(fmt, j + 1);
      text, taken, count := fmt[j..next], 0, next - j;
      ok := PrintText(sink, fmt[j..next], written);
      return;
    }
    var m := Conversion(fmt, i);
    if IsConversion(At(fmt, m)) {
      assert args[used..][1..] == args[used + 1..];
      text, next, taken := Converted(fmt[m], args[used]), m + 1, 1;
      ok, count := Convert(sink, fmt[m], args[used], written);
    } else {
      text, next, taken, count := fmt[i..], |fmt|, 0, |fmt| - i;
      ok := PrintText(sink, fmt[i..], written);
    }
  }

  method PlainStretch(fmt: seq<char>, i: nat) returns (r: nat)
    requires i <= |fmt|
    ensures r == PlainEnd(fmt, i)
  {
    r := i;
    while r < |fmt| && fmt[r] != '%'
      invariant i <= r <= |fmt| && PlainEnd(fmt, i) == PlainEnd(fmt, r)
    {
      r := r + 1;
    }
  }

  method Conversion(fmt: seq<char>, i: nat) returns (m: nat)
    requires i < |fmt|
    ensures m == ConversionAt(fmt, i)
  {
    m := i + 1;
    while m < |fmt| && IsFlag(fmt[m])
      invariant i < m <= |fmt| && SkipFlags(fmt, i + 1) == SkipFlags(fmt, m)
    {
      m := m + 1;
    }
    ghost var f := m;
    while m < |fmt| && IsDigit(fmt[m])
      invariant f <= m <= |fmt| && SkipWidth(fmt, f) == SkipWidth(fmt, m)
    {
      m := m + 1;
    }
  }

  lemma RenderStep(fmt: seq<char>, i: nat, args: seq<Arg>)
    requires i < |fmt| && Fits(fmt, i, args)
    ensures Plain(fmt, i) ==>
      var j := Start(fmt, i);
      var e := PlainEnd(fmt, j + 1);
      Fits(fmt, e, args[0..]) && Rendered(fmt, i, args) == fmt[j..e] + Rendered(fmt, e, args[0..])
    ensures !Plain(fmt, i) && IsConversion(At(fmt, ConversionAt(fmt, i))) ==>
      var m := ConversionAt(fmt, i);
      && m < |fmt| && args != [] && Takes(fmt[m], args[0]) && Fits(fmt, m + 1, args[1..])
      && Rendered(fmt, i, args) == Converted(fmt[m], args[0]) + Rendered(fmt, m + 1, args[1..])
    ensures !Plain(fmt, i) && !IsConversion(At(fmt, ConversionAt(fmt, i))) ==>
      Fits(fmt, |fmt|, args[0..]) && Rendered(fmt, i, args) == fmt[i..] + Rendered(fmt, |fmt|, args[0..])
  {
    hide Converted, IsConversion, Takes, PlainEnd, ConversionAt;
    assert args[0..] == args;
  }

  lemma RenderEnd(fmt: seq<char>, args: seq<Arg>)
    ensures Fits(fmt, |fmt|, args) && Rendered(fmt, |fmt|, args) == []
  {
  }

  lemma Progress(out0: seq<char>, done: seq<char>, text: seq<char>, more: seq<char>, now: seq<char>, all: seq<char>)
    requires done + (text + more) == all
    ensures out0 + done <= now <= out0 + done + text ==> out0 <= now <= out0 + all
    ensures out0 + done + text == out0 + (done + text)
    ensures done + text + more == all
    ensures |all| == |done| + |text| + |more|
  {
    assert done + text + more == all;
    assert out0 + done + text + more == out0 + all;
  }

  // ---- what a conversion prints, read back from its characters ----------------------------------------------------

  predicate DecimalDigit(c: char)
  {
    '0' <= c <= '9'
  }

  /** A numeral of v: digits of the base and nothing else, no superfluous zero in front, with the value v. */
  predicate Numeral(text: seq<char>, v: nat, base: nat, letters: seq<char>)
  {
    && text != [] && Value(text, base) == v && (text[0] == '0' ==> text == "0")
    && forall i :: 0 <= i < |text| ==>
      (DecimalDigit(text[i]) && text[i] as int < '0' as int + base) || text[i] in letters
  }

  /** What the letter of a conversion promises of the characters it prints for a 32-bit argument. */
  predicate Meant(c: char, v: int, text: seq<char>)
  {
    if c == 'd' || c == 'i' then
      if v < 0x8000_0000 then 0 <= v && Numeral(text, v, 10, [])
      else 0x1_0000_0000 - v >= 0 && text != [] && text[0] == '-' && Numeral(text[1..], 0x1_0000_0000 - v, 10, [])
    else if v < 0 then false
    else if c == 'u' then Numeral(text, v, 10, [])
    else if c == 'o' then Numeral(text, v, 8, [])
    else if c == 'x' then Numeral(text, v, 16, "abcdef")
    else if c == 'X' then Numeral(text, v, 16, "ABCDEF")
    else if c == 'p' then |text| > 2 && text[..2] == "0x" && Numeral(text[2..], v, 16, "abcdef")
    else c == 'c' && text == [(v % 256) as char]
  }

  predicate Shows(c: char, arg: Arg, text: seq<char>)
  {
    match arg
    case Num(v) => c != 's' && Meant(c, v, text)
    case Str(t) => c == 's' && text == t
  }

  lemma DigitClass(d: int, base: nat, upper: bool)
    requires 0 <= d < base <= 16
    ensures var c := Digit(d, upper);
      (DecimalDigit(c) && c as int < '0' as int + base) || (base > 10 && c in if upper then "ABCDEF" else "abcdef")
    ensures Digit(d, upper) == '0' <==> d == 0
  {
  }

  lemma {:induction false} TextNumeral(v: nat, base: nat, upper: bool)
    requires 2 <= base <= 16
    ensures Numeral(Text(v, base, upper), v, base, if base <= 10 then [] else if upper then "ABCDEF" else "abcdef")
    ensures v > 0 ==> Text(v, base, upper)[0] != '0'
    decreases v
  {
    hide Value, Digit;
    TextBack(v, base, upper);
    if v < base {
      DigitClass(v, base, upper);
      ZeroText(v, base, upper);
    } else {
      Smaller(v, base);
      TextNumeral(v / base, base, upper);
      DigitClass(v % base, base, upper);
    }
  }

  lemma ZeroText(v: nat, base: nat, upper: bool)
    requires v < base <= 16 && 2 <= base
    ensures Text(v, base, upper) == [Digit(v, upper)] && (v == 0 ==> Digit(v, upper) == '0')
  {
  }

  /** What each conversion prints: the number its argument is, in the notation its letter stands for. */
  lemma ConversionShows(c: char, arg: Arg)
    requires IsConversion(c) && Takes(c, arg)
    ensures Shows(c, arg, Converted(c, arg))
  {
    hide Text, Numeral;
    match arg
    case Str(_) =>
    case Num(v) =>
      TextNumeral(v, 10, false);
      TextNumeral(v, 8, false);
      TextNumeral(v, 16, false);
      TextNumeral(v, 16, true);
      if v >= 0x8000_0000 {
        TextNumeral(WORD - v, 10, false);
        Rest(v, 0, v);
        assert Wrap(v) == v - WORD;
        assert SignedText(WORD - v, 10, false, true)[1..] == Text(WORD - v, 10, false);
      } else {
        WrapSmall(v);
        assert SignedText(v, 10, false, false) == Text(v, 10, false);
      }
      assert ("0x" + Text(v, 16, false))[2..] == Text(v, 16, false);
  }

  // ---- formats put together from pieces --------------------------------------------------------------------------

  /** A character to print as it is, or a conversion with its flags, its width and its argument. */
  datatype Atom = Char(c: char) | Conv(flags: seq<char>, width: seq<char>, conversion: char, arg: Arg)

  predicate AtomOk(a: Atom)
  {
    a.Conv? ==>
      && (forall i :: 0 <= i < |a.flags| ==> a.flags[i] in "-+ #0")
      && (forall i :: 0 <= i < |a.width| ==> a.width[i] in "0123456789")
      && a.conversion in "csdiuxXop"
      && if a.conversion == 's' then a.arg.Str? else a.arg.Num? && 0 <= a.arg.v < 0x1_0000_0000
  }

  /** The letters, flags and digits the scan knows are those of the language. */
  lemma Letters()
    ensures forall c {:trigger IsFlag(c)} :: IsFlag(c) <==> c in "-+ #0"
    ensures forall c {:trigger IsDigit(c)} :: IsDigit(c) <==> c in "0123456789"
    ensures forall c {:trigger IsConversion(c)} :: IsConversion(c) <==> c in "csdiuxXop"
  {
  }

  lemma AtomParts(a: Atom)
    requires AtomOk(a) && a.Conv?
    ensures (forall i :: 0 <= i < |a.flags| ==> IsFlag(a.flags[i]))
    ensures (forall i :: 0 <= i < |a.width| ==> IsDigit(a.width[i]))
    ensures IsConversion(a.conversion) && Takes(a.conversion, a.arg)
  {
    Letters();
  }

  function FormatOf(a: Atom): seq<char>
  {
    match a
    case Char(c) => if c == '%' then "%%" else [c]
    case Conv(flags, width, conversion, _) => "%" + flags + width + [conversion]
  }

  function TextOf(a: Atom): seq<char>
    requires AtomOk(a)
  {
    match a
    case Char(c) => [c]
    case Conv(_, _, conversion, arg) =>
      assert IsConversion(conversion) && Takes(conversion, arg) by { AtomParts(a); }
      Converted(conversion, arg)
  }

  /** The text is made of one piece for each atom, in order: the character itself, or what the conversion promises. */
  ghost predicate Made(atoms: seq<Atom>, text: seq<char>)
    decreases |atoms|
  {
    if atoms == [] then text == []
    else exists k :: 0 <= k <= |text| && PieceOf(atoms[0], text[..k]) && Made(atoms[1..], text[k..])
  }

  predicate PieceOf(a: Atom, text: seq<char>)
  {
    match a
    case Char(c) => text == [c]
    case Conv(_, _, conversion, arg) => Shows(conversion, arg, text)
  }

  lemma {:induction false} OutputMade(atoms: seq<Atom>)
    requires forall a :: a in atoms ==> AtomOk(a)
    ensures Made(atoms, Output(atoms))
    decreases |atoms|
  {
    hide Shows, Converted, AtomOk;
    if atoms != [] {
      var a, text := atoms[0], Output(atoms);
      OutputMade(atoms[1..]);
      PieceMade(a);
      assert text[..|TextOf(a)|] == TextOf(a) && text[|TextOf(a)|..] == Output(atoms[1..]);
    }
  }

  lemma PieceMade(a: Atom)
    requires AtomOk(a)
    ensures PieceOf(a, TextOf(a))
  {
    hide Shows, Converted, IsConversion, Takes;
    if a.Conv? {
      AtomParts(a);
      ConversionShows(a.conversion, a.arg);
    }
  }

  function Format(atoms: seq<Atom>): seq<char>
  {
    if atoms == [] then [] else FormatOf(atoms[0]) + Format(atoms[1..])
  }

  function Args(atoms: seq<Atom>): seq<Arg>
  {
    if atoms == [] then [] else (if atoms[0].Conv? then [atoms[0].arg] else []) + Args(atoms[1..])
  }

  function Output(atoms: seq<Atom>): seq<char>
    requires forall a :: a in atoms ==> AtomOk(a)
  {
    if atoms == [] then [] else TextOf(atoms[0]) + Output(atoms[1..])
  }

  lemma PlainUnfolds(fmt: seq<char>, i: nat, args: seq<Arg>)
    requires i < |fmt| && Plain(fmt, i)
    ensures var j := Start(fmt, i);
      var e := PlainEnd(fmt, j + 1);
      && (Fits(fmt, i, args) <==> Fits(fmt, e, args))
      && (Fits(fmt, i, args) ==> Rendered(fmt, i, args) == fmt[j..e] + Rendered(fmt, e, args))
  {
    hide Converted, Takes, IsConversion, ConversionAt;
  }

  lemma PlainEndStep(fmt: seq<char>, k: nat)
    requires k <= |fmt|
    ensures PlainEnd(fmt, k) == if k < |fmt| && fmt[k] != '%' then PlainEnd(fmt, k + 1) else k
  {
  }

  /** An ordinary character prints itself, and so does an escaped percent sign, wherever the stretch ends. */
  lemma PlainStep(fmt: seq<char>, i: nat, args: seq<Arg>)
    requires i < |fmt| && Plain(fmt, i)
    requires Fits(fmt, Start(fmt, i) + 1, args)
    ensures Fits(fmt, i, args)
    ensures Rendered(fmt, i, args) == [fmt[Start(fmt, i)]] + Rendered(fmt, Start(fmt, i) + 1, args)
  {
    hide Fits, Rendered, PlainEnd;
    var j := Start(fmt, i);
    var e := PlainEnd(fmt, j + 1);
    PlainUnfolds(fmt, i, args);
    PlainEndStep(fmt, j + 1);
    if j + 1 < |fmt| && fmt[j + 1] != '%' {
      PlainUnfolds(fmt, j + 1, args);
      assert fmt[j..e] == [fmt[j]] + fmt[j + 1..e];
    } else {
      assert fmt[j..e] == [fmt[j]];
    }
  }

  lemma {:induction false} FlagsSkipped(fmt: seq<char>, i: nat, n: nat)
    requires i + n <= |fmt| && forall k :: i <= k < i + n ==> IsFlag(fmt[k])
    ensures SkipFlags(fmt, i) == SkipFlags(fmt, i + n)
    decreases n
  {
    if n > 0 {
      FlagsSkipped(fmt, i + 1, n - 1);
    }
  }

  lemma {:induction false} WidthSkipped(fmt: seq<char>, i: nat, n: nat)
    requires i + n < |fmt| && (forall k :: i <= k < i + n ==> IsDigit(fmt[k])) && !IsDigit(fmt[i + n])
    ensures SkipWidth(fmt, i) == i + n
    decreases n
  {
    if n > 0 {
      WidthSkipped(fmt, i + 1, n - 1);
    }
  }

  lemma {:induction false} FlagsAmongDigits(fmt: seq<char>, i: nat, n: nat)
    requires i + n < |fmt| && (forall k :: i <= k < i + n ==> IsDigit(fmt[k])) && !IsDigit(fmt[i + n])
    requires !IsFlag(fmt[i + n])
    ensures i <= SkipFlags(fmt, i) <= i + n
    decreases n
  {
    if n > 0 && IsFlag(fmt[i]) {
      FlagsAmongDigits(fmt, i + 1, n - 1);
    }
  }

  /** The scan of a conversion ends at its letter, whatever its flags and width. */
  lemma ConversionFound(fmt: seq<char>, i: nat, flags: seq<char>, width: seq<char>, c: char)
    requires i + 1 + |flags| + |width| < |fmt|
    requires fmt[i + 1..i + 1 + |flags|] == flags
    requires fmt[i + 1 + |flags|..i + 1 + |flags| + |width|] == width
    requires fmt[i + 1 + |flags| + |width|] == c && c !in "-+ #0123456789"
    requires (forall k :: 0 <= k < |flags| ==> flags[k] in "-+ #0")
    requires (forall k :: 0 <= k < |width| ==> width[k] in "0123456789")
    ensures ConversionAt(fmt, i) == i + 1 + |flags| + |width|
    ensures c != '%' || |flags| + |width| > 0 ==> At(fmt, i + 1) != '%'
  {
    hide IsFlag, IsDigit, SkipFlags, SkipWidth;
    Letters();
    var f, w := i + 1 + |flags|, i + 1 + |flags| + |width|;
    forall k | i + 1 <= k < f
      ensures IsFlag(fmt[k])
    {
      assert fmt[k] == flags[k - (i + 1)];
    }
    forall k | f <= k < w
      ensures IsDigit(fmt[k])
    {
      assert fmt[k] == width[k - f];
    }
    FlagsSkipped(fmt, i + 1, |flags|);
    FlagsAmongDigits(fmt, f, |width|);
    var s := SkipFlags(fmt, i + 1);
    WidthSkipped(fmt, s, w - s);
  }

  /** A conversion with an unknown letter prints itself, and the rest of the format as it stands. */
  lemma UnknownPrinted(before: seq<char>, flags: seq<char>, width: seq<char>, c: char, rest: seq<char>, args: seq<Arg>)
    requires (forall k :: 0 <= k < |flags| ==> flags[k] in "-+ #0")
    requires (forall k :: 0 <= k < |width| ==> width[k] in "0123456789")
    requires c !in "csdiuxXop" && c !in "-+ #0123456789" && (c != '%' || |flags| + |width| > 0)
    ensures var piece := "%" + flags + width + [c] + rest;
      Fits(before + piece, |before|, args) && Rendered(before + piece, |before|, args) == piece
  {
    hide SkipFlags, SkipWidth, Converted, Takes, PlainEnd, IsFlag, IsDigit;
    var a := Conv(flags, width, c, Num(0));
    var fmt := before + (FormatOf(a) + rest);
    ConvSlices(before, a, rest);
    ConversionFound(fmt, |before|, flags, width, c);
    assert fmt[|before|..] == "%" + flags + width + [c] + rest;
    assert fmt == before + ("%" + flags + width + [c] + rest);
  }

  /** The format round trip: a format put together from characters and conversions prints exactly the characters and
      the converted arguments, in order. */
  lemma {:induction false} FormatRoundTrip(before: seq<char>, atoms: seq<Atom>)
    requires forall a :: a in atoms ==> AtomOk(a)
    ensures Fits(before + Format(atoms), |before|, Args(atoms))
    ensures Rendered(before + Format(atoms), |before|, Args(atoms)) == Output(atoms)
    ensures Made(atoms, Rendered(before + Format(atoms), |before|, Args(atoms)))
    decreases |atoms|
  {
    hide Converted, Takes, AtomOk, Fits, Rendered, ConversionAt, PlainEnd, IsConversion, Format, Args, Output, FormatOf,
         Made;
    var fmt, i := before + Format(atoms), |before|;
    Unfolded(atoms);
    OutputMade(atoms);
    if atoms == [] {
      assert fmt == before;
      RenderEnd(fmt, []);
    } else {
      var a, rest := atoms[0], atoms[1..];
      var front := before + FormatOf(a);
      FormatRoundTrip(front, rest);
      assert front + Format(rest) == fmt;
      if a.Char? {
        CharStep(before, a.c, Format(rest), Args(rest));
      } else {
        ConvStep(before, a, Format(rest), Args(rest));
      }
    }
  }

  lemma Unfolded(atoms: seq<Atom>)
    requires forall a :: a in atoms ==> AtomOk(a)
    ensures atoms == [] ==> Format(atoms) == [] && Args(atoms) == [] && Output(atoms) == []
    ensures atoms != [] ==>
      && Format(atoms) == FormatOf(atoms[0]) + Format(atoms[1..])
      && Args(atoms) == (if atoms[0].Conv? then [atoms[0].arg] + Args(atoms[1..]) else Args(atoms[1..]))
      && Output(atoms) == TextOf(atoms[0]) + Output(atoms[1..])
  {
    hide AtomOk;
  }

  lemma CharStep(before: seq<char>, c: char, rest: seq<char>, args: seq<Arg>)
    requires var front := before + FormatOf(Char(c)); Fits(front + rest, |front|, args)
    ensures var fmt, front := before + (FormatOf(Char(c)) + rest), before + FormatOf(Char(c));
      && front + rest == fmt && Fits(fmt, |before|, args)
      && Rendered(fmt, |before|, args) == [c] + Rendered(fmt, |front|, args)
  {
    hide Converted, Takes, Fits, Rendered, ConversionAt, PlainEnd;
    var fmt, front := before + (FormatOf(Char(c)) + rest), before + FormatOf(Char(c));
    assert front + rest == fmt;
    assert fmt[|before|] == c;
    if c == '%' {
      assert fmt[|before| + 1] == '%';
    }
    PlainStep(fmt, |before|, args);
  }

  lemma ConvStep(before: seq<char>, a: Atom, rest: seq<char>, args: seq<Arg>)
    requires a.Conv? && AtomOk(a)
    requires var front := before + FormatOf(a); Fits(front + rest, |front|, args)
    ensures IsConversion(a.conversion) && Takes(a.conversion, a.arg)
    ensures var fmt, front := before + (FormatOf(a) + rest), before + FormatOf(a);
      && front + rest == fmt && Fits(fmt, |before|, [a.arg] + args)
      && Rendered(fmt, |before|, [a.arg] + args) == Converted(a.conversion, a.arg) + Rendered(fmt, |front|, args)
  {
    hide Converted, Takes, ConversionAt, PlainEnd, IsConversion, FormatOf;
    AtomParts(a);
    var fmt, front := before + (FormatOf(a) + rest), before + FormatOf(a);
    ConvSlices(before, a, rest);
    ConversionFound(fmt, |before|, a.flags, a.width, a.conversion);
    assert ([a.arg] + args)[1..] == args;
  }

  /** Where the parts of a conversion stand in the format. */
  lemma ConvSlices(before: seq<char>, a: Atom, rest: seq<char>)
    requires a.Conv?
    ensures var fmt, front := before + (FormatOf(a) + rest), before + FormatOf(a);
      var f, w := |before| + 1 + |a.flags|, |before| + 1 + |a.flags| + |a.width|;
      && front + rest == fmt && |front| == w + 1 <= |fmt|
      && fmt[|before|] == '%' && fmt[|before| + 1..f] == a.flags && fmt[f..w] == a.width && fmt[w] == a.conversion
  {
    var head, letter := ['%'] + a.flags + a.width, [a.conversion];
    Assoc(before, FormatOf(a), rest);
    Assoc(before, head, letter);
    SliceOf(before + head, letter, rest);
    Assoc(before, ['%'] + a.flags, a.width);
    Assoc(before + (['%'] + a.flags) + a.width, letter, rest);
    SliceOf(before + (['%'] + a.flags), a.width, letter + rest);
    Assoc(before, ['%'], a.flags);
    Assoc(before + ['%'] + a.flags, a.width, letter + rest);
    SliceOf(before + ['%'], a.flags, a.width + (letter + rest));
    Assoc(before + ['%'], a.flags, a.width + (letter + rest));
    SliceOf(before, ['%'], a.flags + (a.width + (letter + rest)));
  }

  lemma Assoc<A>(x: seq<A>, y: seq<A>, z: seq<A>)
    ensures x + y + z == x + (y + z)
  {
  }

  lemma SliceOf<A>(x: seq<A>, y: seq<A>, z: seq<A>)
    ensures (x + y + z)[|x|..|x| + |y|] == y
    ensures |y| == 1 ==> (x + y + z)[|x|] == y[0]
  {
  }
}
