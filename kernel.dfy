/**
 * The early console of kernel/kernel.c: its own 80x25 VGA text writer
 * (`vga_putchar`, `vga_clear`, `vga_set_color`), the integer conversion
 * `itoa` and the small formatter inside `kprintf`, whose text goes to that
 * console and to the first serial port.
 *
 * The file's statics `vga_buffer`, `vga_color`, `vga_row` and `vga_col`
 * are the fields of the class `EarlyConsole`; the bytes sent to COM1 are
 * the field `serial`. The console's text state reuses the `Text` value of
 * the VGA driver. kprintf's `buf[1024]` is the sequence of bytes stored
 * so far: a store at the index `i` replaces the byte there or, at the end,
 * extends it.
 */
module KernelConsole {
  import opened Wrappers
  import P = Printf
  import V = Vga
  import S = Strings

  const U32: nat := 0x1_0000_0000
  const U64: nat := 0x1_0000_0000_0000_0000
  const Percent: byte := 0x25

  // ---------------------------------------------------------------------
  // itoa
  // ---------------------------------------------------------------------

  /** `tmp` after itoa's digit loop: the digits least significant first, or "0" for 0. */
  function LowOrZero(num: nat, base: nat): seq<byte>
    requires 2 <= base <= 16
  {
    if num == 0 then ['0' as int] else P.LowDigits(num, base, true)
  }

  /** The field itoa writes: the pad character up to the width, then the digits in upper case. */
  function Field(num: nat, base: nat, width: int, pad: byte): seq<byte>
    requires 2 <= base <= 16
  {
    P.Rep(pad, P.Max0(width - |P.Digits(num, base, true)|)) + P.Digits(num, base, true)
  }

  /**
   * itoa writes max(len, width) bytes: pad bytes, then the len digits of
   * the number in the base.
   */
  lemma FieldShape(num: nat, base: nat, width: int, pad: byte)
    requires 2 <= base <= 16
    ensures var f := Field(num, base, width, pad); var len := |P.Digits(num, base, true)|;
      && 1 <= len <= |f|
      && |f| == (if width > len then width else len)
      && f[..|f| - len] == P.Rep(pad, |f| - len)
      && f[|f| - len..] == P.Digits(num, base, true)
  {
    var d := P.Digits(num, base, true);
    P.DigitsShape(num, base, true);
    var k := P.Max0(width - |d|);
    var r := P.Rep(pad, k);
    var f := r + d;
    assert f == Field(num, base, width, pad);
    assert |f| - |d| == k;
    assert f[k..] == d;
    assert f[..k] == r;
  }

  lemma {:induction false} ReverseAppend(a: seq<byte>, b: seq<byte>)
    ensures P.Reverse(a + b) == P.Reverse(b) + P.Reverse(a)
    decreases |a|
  {
    if a == [] {
      assert a + b == b;
    } else {
      ReverseAppend(a[1..], b);
      assert (a + b)[1..] == a[1..] + b;
    }
  }

  lemma {:induction false} ReverseRep(c: byte, n: nat)
    ensures P.Reverse(P.Rep(c, n)) == P.Rep(c, n)
    decreases n
  {
    if n > 0 {
      ReverseRep(c, n - 1);
      assert P.Rep(c, n)[1..] == P.Rep(c, n - 1);
      assert P.Rep(c, n - 1) + [c] == P.Rep(c, n);
    }
  }

  /** Reversing `tmp` (digits, then padding) gives the field. */
  lemma ReversedField(num: nat, base: nat, width: int, pad: byte)
    requires 2 <= base <= 16
    ensures |LowOrZero(num, base)| == |P.Digits(num, base, true)|
    ensures P.Reverse(LowOrZero(num, base) + P.Rep(pad, P.Max0(width - |LowOrZero(num, base)|)))
      == Field(num, base, width, pad)
  {
    var n := P.Max0(width - |LowOrZero(num, base)|);
    ReverseAppend(LowOrZero(num, base), P.Rep(pad, n));
    ReverseRep(pad, n);
  }

  /** itoa's first loop: the digits into `tmp`, least significant first. */
  method LowDigitLoop(num: nat, base: nat) returns (tmp: seq<byte>)
    requires 2 <= base <= 16
    ensures tmp == LowOrZero(num, base)
  {
    tmp := [];
    if num == 0 {
      tmp := tmp + ['0' as int];
    } else {
      var n: nat := num;
      while n > 0
        invariant tmp + P.LowDigits(n, base, true) == P.LowDigits(num, base, true)
        decreases n
      {
        P.DivStep(n, base);
        tmp := tmp + [P.DigitChar(n % base, true)];
        n := n / base;
      }
    }
  }

  /** itoa's second loop: the pad character until `tmp` holds the width. */
  method PadLoop(tmp0: seq<byte>, width: int, pad: byte) returns (tmp: seq<byte>)
    ensures tmp == tmp0 + P.Rep(pad, P.Max0(width - |tmp0|))
  {
    tmp := tmp0;
    while |tmp| < width
      invariant |tmp| >= |tmp0| && tmp == tmp0 + P.Rep(pad, |tmp| - |tmp0|)
      invariant |tmp| - |tmp0| <= P.Max0(width - |tmp0|)
      decreases width - |tmp|
    {
      tmp := tmp + [pad];
    }
  }

  /** itoa's last loop: `tmp` copied into `buf` from its end. */
  method ReverseLoop(tmp: seq<byte>) returns (written: seq<byte>)
    ensures written == P.Reverse(tmp)
  {
    var i := |tmp|;
    written := [];
    while i > 0
      invariant 0 <= i <= |tmp| && written == P.Reverse(tmp[i..])
    {
      i := i - 1;
      assert tmp[i..][1..] == tmp[i + 1..];
      written := written + [tmp[i]];
    }
    assert tmp[0..] == tmp;
  }

  /**
   * itoa(num, base, buf, width, pad): the bytes stored from `buf` on, and
   * the returned length, which counts the digits only.
   */
  method Itoa(num: nat, base: nat, width: int, pad: byte) returns (written: seq<byte>, len: int)
    requires 2 <= base <= 16
    ensures written == Field(num, base, width, pad)
    ensures len == |P.Digits(num, base, true)| && |written| == (if width > len then width else len)
  {
    var tmp := LowDigitLoop(num, base);
    len := |tmp|;
    tmp := PadLoop(tmp, width, pad);
    written := ReverseLoop(tmp);
    ReversedField(num, base, width, pad);
    FieldShape(num, base, width, pad);
  }

  // ---------------------------------------------------------------------
  // The kprintf formatter
  // ---------------------------------------------------------------------

  /**
   * One conversion: the bytes it stores at the index, how far the index
   * then moves, the next argument, and where the conversion letter is.
   */
  datatype Conv = Conv(text: seq<byte>, advance: nat, nextArg: nat, letter: nat)

  /** `-val` of a negative `int`, converted to itoa's `uint64_t` as written: INT_MIN stays INT_MIN. */
  function NegateAsWritten(v: int): nat
  {
    P.Signed(-v, U32) % U64
  }

  /** What follows a `%`: the pad character, the width, and the index of the conversion letter. */
  datatype Spec = Spec(pad: byte, width: int, letter: nat)

  /** An optional `0` (pad with zeros), then a run of width digits, then the letter. */
  function ParseConv(fmt: seq<byte>, p: nat): (r: Spec)
    requires p < |fmt|
    ensures p < r.letter <= |fmt|
  {
    var zero := P.At(fmt, p + 1) == '0' as int;
    var q := if zero then p + 2 else p + 1;
    var e := P.DigitEnd(fmt, q);
    Spec(if zero then '0' as int else ' ' as int, P.Value(fmt[q..e], 10), e)
  }

  /**
   * `%d`: a `-` for a negative argument, then the field of the magnitude.
   * As written the index moves past the sign and the digits only, and
   * `-val` of INT_MIN is INT_MIN again; the corrected formatter moves past
   * all it stored and prints 2^31.
   */
  function SignedConv(sp: Spec, v: int, ai: nat, asWritten: bool): (r: Conv)
    ensures r.advance <= |r.text| && r.letter == sp.letter && r.nextArg == ai + 1
    ensures !asWritten ==> r.advance == |r.text|
  {
    var sign: seq<byte> := if v < 0 then ['-' as int] else [];
    var mag: nat := if v >= 0 then v else if asWritten then NegateAsWritten(v) else -v;
    var f := Field(mag, 10, sp.width, sp.pad);
    Conv(sign + f, if asWritten then |sign| + |P.Digits(mag, 10, true)| else |sign| + |f|, ai + 1, sp.letter)
  }

  /** `%u`, `%x` and `%p`: a prefix, then the field of the number in the base. */
  function UnsignedConv(prefix: seq<byte>, n: nat, base: nat, width: int, pad: byte, letter: nat, ai: nat, asWritten: bool)
    : (r: Conv)
    requires 2 <= base <= 16
    ensures r.advance <= |r.text| && r.letter == letter && r.nextArg == ai + 1
    ensures !asWritten ==> r.advance == |r.text|
  {
    var f := Field(n, base, width, pad);
    Conv(prefix + f, if asWritten then |prefix| + |P.Digits(n, base, true)| else |prefix| + |f|, ai + 1, letter)
  }

  /** The stores of the conversion with letter c and how far the index then moves. */
  function Render(sp: Spec, c: byte, args: seq<P.Arg>, ai: nat, asWritten: bool): (r: Conv)
    ensures r.advance <= |r.text| && r.letter == sp.letter
    ensures !asWritten ==> r.advance == |r.text|
  {
    if c == 'd' as int then SignedConv(sp, P.Signed(P.IntArg(args, ai), U32), ai, asWritten)
    else if c == 'u' as int then UnsignedConv([], P.IntArg(args, ai) % U32, 10, sp.width, sp.pad, sp.letter, ai, asWritten)
    else if c == 'x' as int then UnsignedConv([], P.IntArg(args, ai) % U32, 16, sp.width, sp.pad, sp.letter, ai, asWritten)
    else if c == 'p' as int then
      UnsignedConv(['0' as int, 'x' as int], P.IntArg(args, ai) % U64, 16,
        if sp.width != 0 then sp.width else 16, if sp.pad != 0 then sp.pad else '0' as int, sp.letter, ai, asWritten)
    else if c == 'c' as int then
      Conv([P.IntArg(args, ai) % 0x100], 1, ai + 1, sp.letter)
    else if c == 's' as int then
      var s := P.StrArg(args, ai);
      var t := if s.None? then P.NullText else s.value;
      Conv(t, |t|, ai + 1, sp.letter)
    else
      Conv([c], 1, ai, sp.letter)
  }

  /** The conversion at the `%` at index p. */
  function Conversion(fmt: seq<byte>, p: nat, args: seq<P.Arg>, ai: nat, asWritten: bool): (r: Conv)
    requires p < |fmt|
    ensures p < r.letter <= |fmt| && r.advance <= |r.text|
    ensures !asWritten ==> r.advance == |r.text|
  {
    var sp := ParseConv(fmt, p);
    Render(sp, P.At(fmt, sp.letter), args, ai, asWritten)
  }

  /** A store of `s` at index i of the buffer: it overwrites, and extends past the end. */
  function Put(buf: seq<byte>, i: nat, s: seq<byte>): (r: seq<byte>)
    requires i <= |buf|
    ensures |r| == (if i + |s| > |buf| then i + |s| else |buf|)
    ensures i == |buf| ==> r == buf + s
  {
    buf[..i] + s + (if i + |s| < |buf| then buf[i + |s|..] else [])
  }

  /**
   * kprintf's loop from index p of the format, with the buffer and the
   * index so far. The format ends where its terminator would be. When a
   * trailing `%` or `%05` reaches that terminator, the terminator is the
   * conversion's letter: the `default` case stores it and the model stops
   * there, whereas the C's `p++` steps past it and reads on.
   */
  function Walk(fmt: seq<byte>, p: nat, args: seq<P.Arg>, ai: nat, buf: seq<byte>, i: nat, asWritten: bool)
    : (r: (seq<byte>, nat))
    requires p <= |fmt| && i <= |buf|
    ensures r.1 <= |r.0| && |buf| <= |r.0|
    decreases |fmt| - p
  {
    if p == |fmt| then (buf, i)
    else if fmt[p] != Percent then Walk(fmt, p + 1, args, ai, Put(buf, i, [fmt[p]]), i + 1, asWritten)
    else
      var cv := Conversion(fmt, p, args, ai, asWritten);
      var buf' := Put(buf, i, cv.text);
      if cv.letter == |fmt| then (buf', i + cv.advance)
      else Walk(fmt, cv.letter + 1, args, cv.nextArg, buf', i + cv.advance, asWritten)
  }

  /** What kprintf prints: the buffer up to the index, up to its first NUL (where vga_puts stops). */
  function Output(fmt: seq<byte>, args: seq<P.Arg>, asWritten: bool): seq<byte>
  {
    var r := Walk(fmt, 0, args, 0, [], 0, asWritten);
    S.Str(r.0[..r.1] + [0])
  }

  /**
   * The corrected formatter keeps the index at the end of the buffer, so
   * every store appends and the terminator follows the last byte stored.
   */
  lemma {:induction false} WalkAppends(fmt: seq<byte>, p: nat, args: seq<P.Arg>, ai: nat, buf: seq<byte>)
    requires p <= |fmt|
    ensures var r := Walk(fmt, p, args, ai, buf, |buf|, false);
      r.1 == |r.0|
    decreases |fmt| - p, 1
  {
    if p < |fmt| {
      if fmt[p] != Percent {
        var b := buf + [fmt[p]];
        assert Put(buf, |buf|, [fmt[p]]) == b;
        WalkAppends(fmt, p + 1, args, ai, b);
      } else {
        ConversionAppends(fmt, p, args, ai, buf);
      }
    }
  }

  /** The step of `WalkAppends` at a `%`. */
  lemma {:induction false} ConversionAppends(fmt: seq<byte>, p: nat, args: seq<P.Arg>, ai: nat, buf: seq<byte>)
    requires p < |fmt| && fmt[p] == Percent
    ensures var r := Walk(fmt, p, args, ai, buf, |buf|, false);
      r.1 == |r.0|
    decreases |fmt| - p, 0
  {
    var cv := Conversion(fmt, p, args, ai, false);
    var b := buf + cv.text;
    assert Put(buf, |buf|, cv.text) == b;
    if cv.letter < |fmt| {
      WalkAppends(fmt, cv.letter + 1, args, cv.nextArg, b);
    }
  }

  /** A format without `%` is printed as it is. */
  lemma {:induction false} LiteralFormat(fmt: seq<byte>, p: nat, args: seq<P.Arg>, ai: nat, buf: seq<byte>, asWritten: bool)
    requires p <= |fmt| && Percent !in fmt
    ensures Walk(fmt, p, args, ai, buf, |buf|, asWritten) == (buf + fmt[p..], |buf| + |fmt| - p)
    decreases |fmt| - p
  {
    if p < |fmt| {
      assert fmt[p] in fmt;
      assert Put(buf, |buf|, [fmt[p]]) == buf + [fmt[p]];
      LiteralFormat(fmt, p + 1, args, ai, buf + [fmt[p]], asWritten);
      assert |buf + [fmt[p]]| == |buf| + 1;
      assert buf + [fmt[p]] + fmt[p + 1..] == buf + fmt[p..];
    } else {
      assert buf + fmt[p..] == buf;
    }
  }

  /** kprintf(fmt) of a format with no `%` and no NUL prints exactly fmt. */
  lemma LiteralOutput(fmt: seq<byte>, args: seq<P.Arg>, asWritten: bool)
    requires Percent !in fmt && 0 !in fmt
    ensures Output(fmt, args, asWritten) == fmt
  {
    LiteralFormat(fmt, 0, args, 0, [], asWritten);
    assert [] + fmt[0..] == fmt;
    S.StrlenUnique(fmt + [0], |fmt|);
    assert (fmt + [0])[..|fmt|] == fmt;
  }

  /**
   * `%s` copies the whole string, or "(null)" for NULL, with no bound: the
   * 1024-byte buffer is never checked.
   */
  lemma StringOutput(s: seq<byte>)
    requires 0 !in s
    ensures Output([Percent, 's' as int], [P.Str(Some(s))], false) == s
    ensures Output([Percent, 's' as int], [P.Str(None)], false) == P.NullText
  {
    var fmt := [Percent, 's' as int];
    assert P.DigitEnd(fmt, 1) == 1;
    assert fmt[1..1] == [];
    assert ParseConv(fmt, 0) == Spec(' ' as int, 0, 1);
    assert P.At(fmt, 1) == 's' as int;
    assert Conversion(fmt, 0, [P.Str(Some(s))], 0, false) == Conv(s, |s|, 1, 1);
    assert Conversion(fmt, 0, [P.Str(None)], 0, false) == Conv(P.NullText, 6, 1, 1);
    assert Put([], 0, s) == s;
    assert Put([], 0, P.NullText) == P.NullText;
    assert Walk(fmt, 2, [P.Str(Some(s))], 1, s, |s|, false) == (s, |s|);
    assert Walk(fmt, 2, [P.Str(None)], 1, P.NullText, 6, false) == (P.NullText, 6);
    assert s[..|s|] == s;
    StrOf(s, |s|);
    assert P.NullText[..6] == P.NullText;
    StrOf(P.NullText, 6);
  }

  /** A letter that is not a conversion is printed itself, and uses no argument. */
  lemma UnknownLetter(fmt: seq<byte>, p: nat, args: seq<P.Arg>, ai: nat, asWritten: bool)
    requires p + 1 < |fmt| && fmt[p] == Percent
    requires !P.IsDigit(fmt[p + 1]) && fmt[p + 1] !in ['d' as int, 'u' as int, 'x' as int, 'p' as int, 'c' as int, 's' as int]
    ensures Conversion(fmt, p, args, ai, asWritten) == Conv([fmt[p + 1]], 1, ai, p + 1)
  {
    assert P.DigitEnd(fmt, p + 1) == p + 1;
  }

  /**
   * A numeric field as written: the same bytes are stored, but the index
   * moves past the prefix and the digit count only, so it falls short of
   * the end exactly when the width pads the field. The padding is then
   * what the rest of the output overwrites and the terminator cuts.
   */
  lemma UnsignedAdvanceAsWritten(prefix: seq<byte>, n: nat, base: nat, width: int, pad: byte, letter: nat, ai: nat)
    requires 2 <= base <= 16
    ensures var cv := UnsignedConv(prefix, n, base, width, pad, letter, ai, true);
      var cr := UnsignedConv(prefix, n, base, width, pad, letter, ai, false);
      && cv.text == cr.text && cv.nextArg == cr.nextArg
      && (cv.advance < cr.advance <==> width > |P.Digits(n, base, true)|)
      && cv.advance == |prefix| + |P.Digits(n, base, true)|
  {
    FieldShape(n, base, width, pad);
  }

  /** The same for `%d`, for every argument but INT_MIN. */
  lemma SignedAdvanceAsWritten(sp: Spec, v: int, ai: nat)
    requires v != -0x8000_0000 && -0x8000_0000 <= v
    ensures var cv := SignedConv(sp, v, ai, true); var cr := SignedConv(sp, v, ai, false);
      && cv.text == cr.text && cv.nextArg == cr.nextArg
      && (cv.advance < cr.advance <==> sp.width > |P.Digits(if v < 0 then -v else v, 10, true)|)
  {
    var mag := if v < 0 then -v else v;
    assert v < 0 ==> NegateAsWritten(v) == mag;
    FieldShape(mag, 10, sp.width, sp.pad);
  }

  /** The other conversions do not depend on the advance. */
  lemma OtherAdvance(sp: Spec, c: byte, args: seq<P.Arg>, ai: nat)
    requires c !in ['d' as int, 'u' as int, 'x' as int, 'p' as int]
    ensures Render(sp, c, args, ai, true) == Render(sp, c, args, ai, false)
    ensures Render(sp, c, args, ai, true).advance == |Render(sp, c, args, ai, true).text|
  {
  }

  lemma Digits42()
    ensures P.Digits(42, 10, true) == ['4' as int, '2' as int]
  {
    assert P.LowDigits(4, 10, true) == ['4' as int] by {
      assert P.LowDigits(0, 10, true) == [];
    }
    assert P.LowDigits(42, 10, true) == ['2' as int, '4' as int];
    assert P.Reverse(['4' as int]) == ['4' as int];
    assert P.Reverse(['2' as int, '4' as int]) == ['4' as int, '2' as int] by {
      assert ['2' as int, '4' as int][1..] == ['4' as int];
    }
  }

  lemma ParseFiveD(fmt: seq<byte>)
    requires fmt == [Percent, '5' as int, 'd' as int]
    ensures ParseConv(fmt, 0) == Spec(' ' as int, 5, 2)
  {
    assert P.DigitEnd(fmt, 2) == 2;
    assert P.DigitEnd(fmt, 1) == 2;
    assert fmt[1..2] == ['5' as int];
    assert P.Value(['5' as int], 10) == 5 by {
      assert ['5' as int][..0] == [];
    }
  }

  /** `%5d` of 42 stores "   42"; as written the index moves by 2, corrected by 5. */
  lemma ConvFiveD(fmt: seq<byte>, asWritten: bool)
    requires fmt == [Percent, '5' as int, 'd' as int]
    ensures Conversion(fmt, 0, [P.Int(42)], 0, asWritten)
      == Conv([' ' as int, ' ' as int, ' ' as int, '4' as int, '2' as int], if asWritten then 2 else 5, 1, 2)
  {
    ParseFiveD(fmt);
    Digits42();
    assert P.Signed(42, U32) == 42;
    assert Field(42, 10, 5, ' ' as int) == [' ' as int, ' ' as int, ' ' as int, '4' as int, '2' as int];
  }

  lemma StrOf(t: seq<byte>, k: nat)
    requires k <= |t| && 0 !in t[..k]
    ensures S.Str(t[..k] + [0]) == t[..k]
  {
    S.StrlenUnique(t[..k] + [0], k);
    assert (t[..k] + [0])[..k] == t[..k];
  }

  /** kprintf("%5d", 42): as written it prints two spaces; the corrected formatter prints "   42". */
  lemma PaddedFieldAsWritten()
    ensures Output([Percent, '5' as int, 'd' as int], [P.Int(42)], true) == [' ' as int, ' ' as int]
    ensures Output([Percent, '5' as int, 'd' as int], [P.Int(42)], false)
      == [' ' as int, ' ' as int, ' ' as int, '4' as int, '2' as int]
  {
    var fmt := [Percent, '5' as int, 'd' as int];
    var field := [' ' as int, ' ' as int, ' ' as int, '4' as int, '2' as int];
    ConvFiveD(fmt, true);
    ConvFiveD(fmt, false);
    assert Put([], 0, field) == field;
    assert Walk(fmt, 0, [P.Int(42)], 0, [], 0, true) == (field, 2);
    assert Walk(fmt, 0, [P.Int(42)], 0, [], 0, false) == (field, 5);
    StrOf(field, 2);
    StrOf(field, 5);
    assert field[..5] == field;
  }

  /**
   * kprintf("%d", INT_MIN): as written `-val` overflows and itoa receives
   * 2^64 - 2^31; the corrected formatter prints 2^31 after the sign.
   */
  lemma IntMinAsWritten(fmt: seq<byte>)
    requires fmt == [Percent, 'd' as int]
    ensures Conversion(fmt, 0, [P.Int(-0x8000_0000)], 0, true).text
      == ['-' as int] + Field(U64 - 0x8000_0000, 10, 0, ' ' as int)
    ensures Conversion(fmt, 0, [P.Int(-0x8000_0000)], 0, false).text
      == ['-' as int] + Field(0x8000_0000, 10, 0, ' ' as int)
  {
    assert P.DigitEnd(fmt, 1) == 1;
    assert fmt[1..1] == [];
  }

  /**
   * The corrected `%u`, `%x` and `%p`: the prefix, the pad character up to
   * the width, then the digits of the number in the base (which read back
   * as the number, by `Printf.DigitsValue`).
   */
  lemma UnsignedConversion(prefix: seq<byte>, n: nat, base: nat, width: int, pad: byte, letter: nat, ai: nat)
    requires 2 <= base <= 16
    ensures var t := UnsignedConv(prefix, n, base, width, pad, letter, ai, false).text;
      var len := |P.Digits(n, base, true)|;
      && |t| == |prefix| + (if width > len then width else len)
      && t[..|prefix|] == prefix
      && (forall k :: |prefix| <= k < |t| - len ==> t[k] == pad)
      && t[|t| - len..] == P.Digits(n, base, true)
  {
    var f := Field(n, base, width, pad);
    assert UnsignedConv(prefix, n, base, width, pad, letter, ai, false).text == prefix + f;
    FieldShape(n, base, width, pad);
    PrefixedField(prefix, f, |P.Digits(n, base, true)|, pad);
  }

  /** A prefix before a padded field: the prefix, then the pad bytes, then the same digits. */
  lemma PrefixedField(prefix: seq<byte>, f: seq<byte>, len: nat, pad: byte)
    requires len <= |f| && f[..|f| - len] == P.Rep(pad, |f| - len)
    ensures var t := prefix + f;
      && t[..|prefix|] == prefix
      && (forall k :: |prefix| <= k < |t| - len ==> t[k] == pad)
      && t[|t| - len..] == f[|f| - len..]
  {
    var t := prefix + f;
    assert t[|t| - len..] == f[|f| - len..];
    assert t[..|prefix|] == prefix;
    forall k | |prefix| <= k < |t| - len
      ensures t[k] == pad
    {
      assert t[k] == f[..|f| - len][k - |prefix|];
    }
  }

  /**
   * The corrected `%d` stores `-` exactly for a negative argument, and
   * ends in the digits of its magnitude.
   */
  lemma SignedConversion(sp: Spec, v: int, ai: nat)
    requires sp.pad != '-' as int
    ensures var t := SignedConv(sp, v, ai, false).text;
      var mag := if v < 0 then -v else v;
      var len := |P.Digits(mag, 10, true)|;
      && 1 <= len <= |t|
      && (v < 0 <==> t[0] == '-' as int)
      && t[|t| - len..] == P.Digits(mag, 10, true)
  {
    var mag := if v < 0 then -v else v;
    FieldShape(mag, 10, sp.width, sp.pad);
    P.DigitsShape(mag, 10, true);
    var f := Field(mag, 10, sp.width, sp.pad);
    var len := |P.Digits(mag, 10, true)|;
    var t := (if v < 0 then ['-' as int] else []) + f;
    assert SignedConv(sp, v, ai, false).text == t;
    assert t[|t| - len..] == f[|f| - len..];
    if v >= 0 {
      assert t[0] == f[0];
      if |f| > len {
        assert f[0] == f[..|f| - len][0];
      } else {
        assert f[0] == P.Digits(mag, 10, true)[0];
      }
    }
  }

  // ---------------------------------------------------------------------
  // The early VGA console as a value
  // ---------------------------------------------------------------------

  /**
   * vga_set_color of the early console: the background shifted into the
   * high nibble, the foreground masked to the low one.
   */
  function EarlyColor(fg: bv8, bg: bv8): bv8
  {
    (bg << 4) | (fg & 0x0F)
  }

  /** The attribute holds the low nibbles of both colours, and nothing else. */
  lemma EarlyColorNibbles(fg: bv8, bg: bv8)
    ensures EarlyColor(fg, bg) & 0x0F == fg & 0x0F
    ensures EarlyColor(fg, bg) >> 4 == bg & 0x0F
  {
  }

  /**
   * For a foreground below 16 it is the driver's vga_entry_color; a larger
   * foreground, which the driver lets spill into the background, is cut.
   */
  lemma EarlyColorAgrees(fg: bv8, bg: bv8)
    ensures fg < 16 ==> EarlyColor(fg, bg) == V.EntryColor(fg, bg)
    ensures fg >= 16 ==> EarlyColor(fg, bg) != V.EntryColor(fg, bg) || (fg >> 4) & (bg ^ 0x0F) == 0
  {
  }

  /**
   * The cell vga_putchar stores as written: the plain `char` is signed, so
   * a byte of 0x80 and above is sign-extended before the `|`, and the high
   * byte of the 16-bit cell becomes 0xFF.
   */
  function CellAsWritten(c: bv8, color: bv8): bv16
  {
    var ch: bv16 := if c >= 0x80 then 0xFF00 | (c as bv16) else c as bv16;
    ((color as bv16) << 8) | ch
  }

  /**
   * As written, a character below 0x80 gets the console colour, one from
   * 0x80 on gets the attribute 0xFF whatever the colour.
   */
  lemma SignExtensionAsWritten(c: bv8, color: bv8)
    ensures c < 0x80 ==> CellAsWritten(c, color) == V.Entry(c, color)
    ensures c >= 0x80 ==> (CellAsWritten(c, color) >> 8) as bv8 == 0xFF && (CellAsWritten(c, color) & 0xFF) as bv8 == c
    ensures CellAsWritten(0xE9, 0x07) == 0xFFE9 && V.Entry(0xE9, 0x07) == 0x07E9
  {
  }

  /**
   * The early vga_putchar on the text state: '\n' moves to the next row
   * and scrolls at the bottom as the driver does; '\r' resets the column;
   * every other byte is stored with the console colour (the corrected cell)
   * and the cursor advances, wrapping from the last cell to the top of the
   * screen without scrolling.
   */
  function PutCharEarly(t: V.Text, c: byte): (r: V.Text)
    requires V.Valid(t)
    ensures V.Valid(r) && r.color == t.color
  {
    if c == 10 then V.NextRowOn(t.(col := 0))
    else if c == 13 then t.(col := 0)
    else
      var cells := t.cells[V.Index(t.row, t.col) := V.Entry(c as bv8, t.color)];
      if t.col + 1 < V.Width then t.(cells := cells, col := t.col + 1)
      else if t.row + 1 < V.Height then t.(cells := cells, row := t.row + 1, col := 0)
      else t.(cells := cells, row := 0, col := 0)
  }

  /**
   * Any byte but '\n' and '\r' lands in the cursor's cell, changes only
   * that cell, and moves the cursor one cell on, from the last cell back to
   * the first.
   */
  lemma EarlyPrint(t: V.Text, c: byte)
    requires V.Valid(t) && c != 10 && c != 13
    ensures var r := PutCharEarly(t, c);
      && r.cells == t.cells[V.Index(t.row, t.col) := V.Entry(c as bv8, t.color)]
      && V.Index(r.row, r.col) == NextCell(V.Index(t.row, t.col))
  {
  }

  /** The cell after `k`, round the screen. */
  function NextCell(k: int): int
  {
    if k == V.Size - 1 then 0 else k + 1
  }

  /** `n` cells on from `k`, round the screen. */
  function CellsOn(k: int, n: nat): int
  {
    if n == 0 then k else NextCell(CellsOn(k, n - 1))
  }

  /** Moving n cells on is adding n modulo the screen size. */
  lemma {:induction false} CellsOnMod(k: int, n: nat)
    requires 0 <= k < V.Size
    ensures CellsOn(k, n) == (k + n) % V.Size
  {
    if n > 0 {
      CellsOnMod(k, n - 1);
    }
  }

  /**
   * The early console agrees with the driver's vga_putchar everywhere but
   * at '\b' (which it prints) and at the last cell (where the driver
   * scrolls and the early console wraps to the top).
   */
  lemma EarlyAgreesWithDriver(t: V.Text, c: byte)
    requires V.Valid(t) && c != 8
    requires c == 10 || c == 13 || V.Index(t.row, t.col) != V.Size - 1
    ensures PutCharEarly(t, c) == V.PutCharOn(t, c as bv8)
  {
  }

  /** vga_puts on the text state: the bytes one after the other. */
  function PutsEarly(t: V.Text, s: seq<byte>): (r: V.Text)
    requires V.Valid(t)
    ensures V.Valid(r) && r.color == t.color
    decreases |s|
  {
    if s == [] then t else PutCharEarly(PutsEarly(t, s[..|s| - 1]), s[|s| - 1])
  }

  /**
   * A string without '\n' and '\r' moves the cursor by its length, round
   * the screen.
   */
  lemma PutsAdvance(t: V.Text, s: seq<byte>)
    requires V.Valid(t) && 10 !in s && 13 !in s
    ensures var r := PutsEarly(t, s);
      V.Index(r.row, r.col) == (V.Index(t.row, t.col) + |s|) % V.Size
  {
    PutsCellsOn(t, s);
    CellsOnMod(V.Index(t.row, t.col), |s|);
  }

  lemma {:induction false} PutsCellsOn(t: V.Text, s: seq<byte>)
    requires V.Valid(t) && 10 !in s && 13 !in s
    ensures var r := PutsEarly(t, s);
      V.Index(r.row, r.col) == CellsOn(V.Index(t.row, t.col), |s|)
    decreases |s|
  {
    if s != [] {
      var init := s[..|s| - 1];
      var c := s[|s| - 1];
      assert s == init + [c];
      assert 10 !in init && 13 !in init && c != 10 && c != 13;
      PutsCellsOn(t, init);
      EarlyPrint(PutsEarly(t, init), c);
    }
  }

  /** The last byte of such a string sits just before the new cursor. */
  lemma PutsLastByte(t: V.Text, s: seq<byte>)
    requires V.Valid(t) && s != [] && s[|s| - 1] != 10 && s[|s| - 1] != 13
    ensures var r := PutsEarly(t, s);
      r.cells[if V.Index(r.row, r.col) == 0 then V.Size - 1 else V.Index(r.row, r.col) - 1]
        == V.Entry(s[|s| - 1] as bv8, t.color)
  {
    var u := PutsEarly(t, s[..|s| - 1]);
    var c := s[|s| - 1];
    assert PutsEarly(t, s) == PutCharEarly(u, c);
    EarlyPrint(u, c);
  }

  // ---------------------------------------------------------------------
  // The early console and kprintf
  // ---------------------------------------------------------------------

  class EarlyConsole {
    /** vga_buffer: the 80x25 text cells at 0xB8000. */
    var cells: array<bv16>
    /** vga_color, vga_row, vga_col. */
    var color: bv8
    var row: int
    var col: int
    /** The bytes sent to COM1, oldest first. */
    var serial: seq<byte>

    ghost predicate Valid()
      reads this
    {
      cells.Length == V.Size && 0 <= row < V.Height && 0 <= col < V.Width
    }

    function TextState(): V.Text
      reads this, cells
    {
      V.Text(cells[..], color, row, col)
    }

    /** The statics' initial values: light grey on black, the cursor at the top left. */
    constructor ()
      ensures Valid() && color == 0x07 && row == 0 && col == 0 && serial == []
    {
      cells := new bv16[V.Size];
      color := 0x07;
      row, col := 0, 0;
      serial := [];
    }

    /** vga_set_color. */
    method SetColor(fg: bv8, bg: bv8)
      modifies this
      ensures color == EarlyColor(fg, bg)
      ensures cells == old(cells) && row == old(row) && col == old(col) && serial == old(serial)
    {
      color := (bg << 4) | (fg & 0x0F);
    }

    /** vga_clear: every cell blank in the console colour, the cursor home. */
    method Clear()
      requires cells.Length == V.Size
      modifies this, cells
      ensures Valid() && cells == old(cells) && cells[..] == V.BlankScreen(color)
      ensures row == 0 && col == 0 && color == old(color) && serial == old(serial)
    {
      var y := 0;
      while y < V.Height
        modifies cells
        invariant 0 <= y <= V.Height
        invariant forall i :: 0 <= i < y * V.Width ==> cells[i] == V.BlankCell(color)
      {
        var x := 0;
        while x < V.Width
          modifies cells
          invariant 0 <= x <= V.Width
          invariant forall i :: 0 <= i < y * V.Width + x ==> cells[i] == V.BlankCell(color)
        {
          cells[y * V.Width + x] := V.Entry(V.Space, color);
          x := x + 1;
        }
        y := y + 1;
      }
      row := 0;
      col := 0;
    }

    /** vga_putchar. */
    method PutChar(c: byte)
      requires Valid()
      modifies this, cells
      ensures Valid() && cells == old(cells)
      ensures TextState() == PutCharEarly(old(TextState()), c)
      ensures serial == old(serial)
    {
      if c == 10 {
        col := 0;
        row := row + 1;
        if row >= V.Height {
          Scroll();
          row := V.Height - 1;
        }
        return;
      }
      if c == 13 {
        col := 0;
        return;
      }
      cells[row * V.Width + col] := V.Entry(c as bv8, color);
      col := col + 1;
      if col >= V.Width {
        col := 0;
        row := row + 1;
        if row >= V.Height {
          row := 0;
        }
      }
    }

    /** The scroll inside vga_putchar: rows up by one, the last row blank. */
    method Scroll()
      requires cells.Length == V.Size
      modifies cells
      ensures cells[..] == V.Scrolled(old(cells[..]), color)
    {
      ghost var before := cells[..];
      var y := 0;
      while y < V.Height - 1
        invariant 0 <= y <= V.Height - 1
        invariant forall i :: 0 <= i < y * V.Width ==> cells[i] == before[i + V.Width]
        invariant forall i :: y * V.Width <= i < V.Size ==> cells[i] == before[i]
      {
        var x := 0;
        while x < V.Width
          invariant 0 <= x <= V.Width
          invariant forall i :: 0 <= i < y * V.Width + x ==> cells[i] == before[i + V.Width]
          invariant forall i :: y * V.Width + x <= i < V.Size ==> cells[i] == before[i]
        {
          cells[y * V.Width + x] := cells[(y + 1) * V.Width + x];
          x := x + 1;
        }
        y := y + 1;
      }
      var x := 0;
      while x < V.Width
        invariant 0 <= x <= V.Width
        invariant forall i :: 0 <= i < V.Size - V.Width ==> cells[i] == before[i + V.Width]
        invariant forall i :: V.Size - V.Width <= i < V.Size - V.Width + x ==> cells[i] == V.BlankCell(color)
      {
        cells[(V.Height - 1) * V.Width + x] := V.Entry(V.Space, color);
        x := x + 1;
      }
      assert cells[..] == V.Scrolled(before, color);
    }

    /** vga_puts: the bytes of the string up to its NUL. */
    method VgaPuts(str: seq<byte>)
      requires Valid() && 0 in str
      modifies this, cells
      ensures Valid() && cells == old(cells)
      ensures TextState() == PutsEarly(old(TextState()), S.Str(str))
      ensures serial == old(serial)
    {
      ghost var t0 := TextState();
      var i := 0;
      while str[i] != 0
        invariant Valid() && cells == old(cells) && serial == old(serial)
        invariant 0 <= i <= S.Strlen(str)
        invariant TextState() == PutsEarly(t0, str[..i])
        decreases S.Strlen(str) - i
      {
        assert str[..i + 1][..i] == str[..i];
        PutChar(str[i]);
        i := i + 1;
      }
    }

    /** serial_puts: the bytes of the string up to its NUL, to COM1. */
    method SerialPuts(str: seq<byte>)
      requires 0 in str
      modifies this
      ensures serial == old(serial) + S.Str(str)
      ensures cells == old(cells) && color == old(color) && row == old(row) && col == old(col)
    {
      var i := 0;
      while str[i] != 0
        invariant 0 <= i <= S.Strlen(str)
        invariant serial == old(serial) + str[..i]
        invariant cells == old(cells) && color == old(color) && row == old(row) && col == old(col)
        decreases S.Strlen(str) - i
      {
        serial := serial + [str[i]];
        assert str[..i + 1] == str[..i] + [str[i]];
        i := i + 1;
      }
    }

    /**
     * kprintf with the corrected index: what it prints, on the screen and
     * on COM1, is the output of the format and the arguments.
     */
    method Kprintf(fmt: seq<byte>, args: seq<P.Arg>)
      requires Valid() && 0 !in fmt
      modifies this, cells
      ensures Valid() && cells == old(cells)
      ensures TextState() == PutsEarly(old(TextState()), Output(fmt, args, false))
      ensures serial == old(serial) + Output(fmt, args, false)
    {
      var buf := Format(fmt, args);
      VgaPuts(buf + [0]);
      SerialPuts(buf + [0]);
    }
  }

  /** kprintf's loop, with the index moved by what each conversion stored. */
  method Format(fmt: seq<byte>, args: seq<P.Arg>) returns (buf: seq<byte>)
    ensures Output(fmt, args, false) == S.Str(buf + [0])
  {
    buf := [];
    var p := 0;
    var ai := 0;
    while p < |fmt|
      invariant p <= |fmt|
      invariant Walk(fmt, p, args, ai, buf, |buf|, false) == Walk(fmt, 0, args, 0, [], 0, false)
      decreases |fmt| - p
    {
      buf, p, ai := FormatStep(fmt, args, buf, p, ai);
    }
    assert buf[..|buf|] == buf;
  }

  /** One turn of kprintf's loop: a literal byte, or a whole conversion. */
  method FormatStep(fmt: seq<byte>, args: seq<P.Arg>, buf: seq<byte>, p: nat, ai: nat)
    returns (buf': seq<byte>, p': nat, ai': nat)
    requires p < |fmt|
    ensures p < p' <= |fmt|
    ensures Walk(fmt, p', args, ai', buf', |buf'|, false) == Walk(fmt, p, args, ai, buf, |buf|, false)
  {
    if fmt[p] != Percent {
      assert Put(buf, |buf|, [fmt[p]]) == buf + [fmt[p]];
      buf', p', ai' := buf + [fmt[p]], p + 1, ai;
    } else {
      var text, next, letter := Convert(fmt, p, args, ai);
      assert Put(buf, |buf|, text) == buf + text;
      buf', ai' := buf + text, next;
      p' := if letter == |fmt| then |fmt| else letter + 1;
    }
  }

  /** One conversion: the `0` flag, the width digits, then the letter's case of the switch. */
  method Convert(fmt: seq<byte>, p: nat, args: seq<P.Arg>, ai: nat) returns (text: seq<byte>, next: nat, letter: nat)
    requires p < |fmt|
    ensures Conversion(fmt, p, args, ai, false) == Conv(text, |text|, next, letter)
  {
    var pad: byte := ' ' as int;
    var q := p + 1;
    if P.At(fmt, q) == '0' as int {
      pad := '0' as int;
      q := q + 1;
    }
    var width, e := P.ReadDecimal(fmt, q);
    var sp := Spec(pad, width, e);
    assert sp == ParseConv(fmt, p);
    text, next := RenderConv(sp, P.At(fmt, e), args, ai);
    letter := e;
  }

  /** The switch of kprintf on the conversion letter, storing by appending. */
  method RenderConv(sp: Spec, c: byte, args: seq<P.Arg>, ai: nat) returns (text: seq<byte>, next: nat)
    ensures Render(sp, c, args, ai, false) == Conv(text, |text|, next, sp.letter)
  {
    next := ai + 1;
    if c == 'd' as int {
      text := SignedText(sp, P.Signed(P.IntArg(args, ai), U32), ai);
    } else if c == 'u' as int {
      text := UnsignedText([], P.IntArg(args, ai) % U32, 10, sp.width, sp.pad, sp.letter, ai);
    } else if c == 'x' as int {
      text := UnsignedText([], P.IntArg(args, ai) % U32, 16, sp.width, sp.pad, sp.letter, ai);
    } else if c == 'p' as int {
      text := UnsignedText(['0' as int, 'x' as int], P.IntArg(args, ai) % U64, 16,
                           if sp.width != 0 then sp.width else 16, if sp.pad != 0 then sp.pad else '0' as int, sp.letter, ai);
    } else if c == 'c' as int {
      text := [P.IntArg(args, ai) % 0x100];
    } else if c == 's' as int {
      var s := P.StrArg(args, ai);
      text := if s.None? then P.NullText else s.value;
    } else {
      text := [c];
      next := ai;
    }
  }

  /** The `%d` case: the sign, then itoa of the magnitude. */
  method SignedText(sp: Spec, v: int, ai: nat) returns (text: seq<byte>)
    ensures SignedConv(sp, v, ai, false) == Conv(text, |text|, ai + 1, sp.letter)
  {
    var sign: seq<byte> := [];
    var mag: nat;
    if v < 0 {
      sign := ['-' as int];
      mag := -v;
    } else {
      mag := v;
    }
    var f, _ := Itoa(mag, 10, sp.width, sp.pad);
    text := sign + f;
  }

  /** The `%u`, `%x` and `%p` cases: the prefix, then itoa of the number. */
  method UnsignedText(prefix: seq<byte>, n: nat, base: nat, width: int, pad: byte, letter: nat, ai: nat)
    returns (text: seq<byte>)
    requires 2 <= base <= 16
    ensures UnsignedConv(prefix, n, base, width, pad, letter, ai, false) == Conv(text, |text|, ai + 1, letter)
  {
    var f, _ := Itoa(n, base, width, pad);
    text := prefix + f;
  }
}
