/**
 * The kernel's formatted output (kernel/lib/printf.c): the conversion
 * of integers to digit strings, the parser of a conversion
 * specification, and the formatter behind snprintf and kprintf.
 *
 * The output buffer is the sequence of bytes written so far: every store
 * of the formatter is `buffer[written++] = c`, an append, so the buffer's
 * first `written` bytes are that sequence and its length is `written`.
 */
module Printf {
  import opened Wrappers

  const U16: nat := 0x1_0000
  const U32: nat := 0x1_0000_0000
  const U64: nat := 0x1_0000_0000_0000_0000

  // ---------------------------------------------------------------------
  // Digits: int_to_string
  // ---------------------------------------------------------------------

  /** Entry d of the table `"0123456789abcdef"`, with A-F when upper. */
  function DigitChar(d: nat, upper: bool): byte
    requires d < 16
  {
    if d < 10 then '0' as int + d
    else if upper then 'A' as int + d - 10
    else 'a' as int + d - 10
  }

  /** The value of a digit character of either case, -1 for any other byte. */
  function DigitVal(c: byte): int
  {
    if '0' as int <= c <= '9' as int then c - '0' as int
    else if 'a' as int <= c <= 'f' as int then c - 'a' as int + 10
    else if 'A' as int <= c <= 'F' as int then c - 'A' as int + 10
    else -1
  }

  /** Euclidean division by the base, in the form the digit proofs use. */
  lemma DivBase(v: nat, base: nat)
    requires 2 <= base
    ensures v == base * (v / base) + v % base == (v / base) * base + v % base && 0 <= v % base < base
    ensures 0 <= v / base && (v / base == 0 <==> v < base)
    ensures v > 0 ==> v / base < v
  {
    var q := v / base;
    if v > 0 {
      assert base * q >= 2 * q;
    }
  }

  /** The bounds of a division by the base, without the product that relates them. */
  lemma DivStep(v: nat, base: nat)
    requires 2 <= base
    ensures 0 <= v % base < base && 0 <= v / base && (v / base == 0 <==> v < base)
    ensures v > 0 ==> v / base < v
  {
    DivBase(v, base);
  }

  lemma DigitRoundTrip(d: nat, upper: bool)
    requires d < 16
    ensures DigitVal(DigitChar(d, upper)) == d
  {
  }

  /** The digits of v in the base, least significant first, none for 0: what the first loop writes. */
  function LowDigits(v: nat, base: nat, upper: bool): seq<byte>
    requires 2 <= base <= 16
    decreases v
  {
    if v == 0 then [] else [DigitChar(v % base, upper)] + LowDigits(v / base, base, upper)
  }

  function Reverse(s: seq<byte>): (r: seq<byte>)
    ensures |r| == |s|
  {
    if s == [] then [] else Reverse(s[1..]) + [s[0]]
  }

  lemma {:induction false} ReverseAt(s: seq<byte>, i: nat)
    requires i < |s|
    ensures Reverse(s)[i] == s[|s| - 1 - i]
  {
    if i < |s| - 1 {
      ReverseAt(s[1..], i);
    }
  }

  /** The text int_to_string produces for v: "0", or its digits most significant first. */
  function Digits(v: nat, base: nat, upper: bool): seq<byte>
    requires 2 <= base <= 16
  {
    if v == 0 then ['0' as int] else Reverse(LowDigits(v, base, upper))
  }

  /** The number a digit string denotes in the base, read most significant first. */
  function Value(ds: seq<byte>, base: nat): int
  {
    if ds == [] then 0 else Value(ds[..|ds| - 1], base) * base + DigitVal(ds[|ds| - 1])
  }

  /** Reading the digits back in the same base gives the value. */
  lemma DigitsValue(v: nat, base: nat, upper: bool)
    requires 2 <= base <= 16
    ensures Value(Digits(v, base, upper), base) == v
  {
    if v != 0 {
      LowValue(v, base, upper);
    }
  }

  lemma {:induction false} LowValue(v: nat, base: nat, upper: bool)
    requires 2 <= base <= 16
    ensures Value(Reverse(LowDigits(v, base, upper)), base) == v
    decreases v
  {
    if v != 0 {
      var q, d := v / base, v % base;
      DivBase(v, base);
      LowValue(q, base, upper);
      LowSnoc(v, base, upper);
      var r := Reverse(LowDigits(q, base, upper));
      ValueSnoc(r, DigitChar(d, upper), base);
      DigitRoundTrip(d, upper);
      calc {
        Value(Reverse(LowDigits(v, base, upper)), base);
        Value(r + [DigitChar(d, upper)], base);
        Value(r, base) * base + DigitVal(DigitChar(d, upper));
        q * base + d;
      }
    }
  }

  lemma LowSnoc(v: nat, base: nat, upper: bool)
    requires 2 <= base <= 16 && v > 0
    ensures Reverse(LowDigits(v, base, upper)) == Reverse(LowDigits(v / base, base, upper)) + [DigitChar(v % base, upper)]
  {
    var low := LowDigits(v, base, upper);
    LowHead(v, base, upper);
    RevCons(low);
  }

  lemma LowHead(v: nat, base: nat, upper: bool)
    requires 2 <= base <= 16 && v > 0
    ensures |LowDigits(v, base, upper)| > 0
    ensures LowDigits(v, base, upper)[0] == DigitChar(v % base, upper)
    ensures LowDigits(v, base, upper)[1..] == LowDigits(v / base, base, upper)
  {
  }

  lemma RevCons(s: seq<byte>)
    requires |s| > 0
    ensures Reverse(s) == Reverse(s[1..]) + [s[0]]
  {
  }

  lemma ValueSnoc(r: seq<byte>, c: byte, base: nat)
    ensures Value(r + [c], base) == Value(r, base) * base + DigitVal(c)
  {
    assert (r + [c])[..|r|] == r;
  }

  /**
   * The text is not empty, every character is a digit of the base, and
   * only the value 0 begins with '0'.
   */
  lemma DigitsShape(v: nat, base: nat, upper: bool)
    requires 2 <= base <= 16
    ensures |Digits(v, base, upper)| >= 1
    ensures forall i :: 0 <= i < |Digits(v, base, upper)| ==> 0 <= DigitVal(Digits(v, base, upper)[i]) < base
    ensures Digits(v, base, upper)[0] == '0' as int <==> v == 0
  {
    if v != 0 {
      LowShape(v, base, upper);
      var low := LowDigits(v, base, upper);
      forall i | 0 <= i < |low|
        ensures 0 <= DigitVal(Reverse(low)[i]) < base
      {
        ReverseAt(low, i);
      }
      ReverseAt(low, 0);
    }
  }

  lemma {:induction false} LowShape(v: nat, base: nat, upper: bool)
    requires 2 <= base <= 16 && v > 0
    ensures var low := LowDigits(v, base, upper);
      |low| >= 1 && low[|low| - 1] != '0' as int &&
      forall i :: 0 <= i < |low| ==> 0 <= DigitVal(low[i]) < base
    decreases v
  {
    DivStep(v, base);
    if v / base > 0 {
      LowShape(v / base, base, upper);
    } else {
      assert LowDigits(v, base, upper) == [DigitChar(v, upper)];
    }
  }

  function Pow(b: nat, k: nat): nat
  {
    if k == 0 then 1 else b * Pow(b, k - 1)
  }

  lemma {:induction false} LowLength(v: nat, base: nat, upper: bool, k: nat)
    requires 2 <= base <= 16 && v < Pow(base, k)
    ensures |LowDigits(v, base, upper)| <= k
    decreases k
  {
    if v != 0 {
      DivBase(v, base);
      if k == 0 {
        assert false;
      }
      PowBound(v, base, k);
      LowLength(v / base, base, upper, k - 1);
    }
  }

  lemma PowBound(v: nat, base: nat, k: nat)
    requires 2 <= base && 0 < k && v < Pow(base, k)
    ensures v / base < Pow(base, k - 1)
  {
    var q, r, p := v / base, v % base, Pow(base, k - 1);
    DivBase(v, base);
    assert Pow(base, k) == base * p;
    if q >= p {
      MulMono(base, p, base, q);
    }
  }

  lemma {:induction false} PowMono(a: nat, b: nat, k: nat)
    requires a <= b
    ensures Pow(a, k) <= Pow(b, k)
  {
    if k > 0 {
      PowMono(a, b, k - 1);
      MulMono(a, Pow(a, k - 1), b, Pow(b, k - 1));
    }
  }

  lemma MulMono(a: nat, c: nat, b: nat, d: nat)
    requires a <= b && c <= d
    ensures a * c <= b * d
  {
    assert a * c <= b * c;
  }

  /** A 64-bit value has at most 22 digits in base 8 or more: it fits the 32-byte num_buffer. */
  lemma DigitsFit(v: nat, base: nat, upper: bool)
    requires v < U64 && 8 <= base <= 16
    ensures |Digits(v, base, upper)| <= 22
  {
    assert Pow(8, 2) == 64;
    assert Pow(8, 4) == 4096;
    assert Pow(8, 6) == 262144;
    assert Pow(8, 8) == 16777216;
    assert Pow(8, 10) == 1073741824;
    assert Pow(8, 12) == 68719476736;
    assert Pow(8, 14) == 4398046511104;
    assert Pow(8, 16) == 281474976710656;
    assert Pow(8, 18) == 18014398509481984;
    assert Pow(8, 20) == 1152921504606846976;
    assert Pow(8, 22) == 73786976294838206464;
    PowMono(8, base, 22);
    LowLength(v, base, upper, 22);
  }

  /**
   * The two loops of int_to_string for a value other than 0: the digits
   * written least significant first, NUL-terminated, then reversed in
   * place. Returns the number of digits and where the upper pointer of
   * the reversal stopped.
   */
  method WriteDigits(buf: array<byte>, value: nat, base: nat, upper: bool) returns (n: nat, hi: int)
    requires 2 <= base <= 16 && value != 0 && |LowDigits(value, base, upper)| < buf.Length
    modifies buf
    ensures n == |LowDigits(value, base, upper)| && buf[..n] == Reverse(LowDigits(value, base, upper))
    ensures buf[n] == 0 && buf[n + 1..] == old(buf[n + 1..])
    ensures hi + 1 == (n + 1) / 2
  {
    n := WriteLow(buf, value, base, upper);
    hi := ReverseInPlace(buf, n);
  }

  /** The first loop: the digits least significant first, then the terminator. */
  method WriteLow(buf: array<byte>, value: nat, base: nat, upper: bool) returns (n: nat)
    requires 2 <= base <= 16 && |LowDigits(value, base, upper)| < buf.Length
    modifies buf
    ensures n == |LowDigits(value, base, upper)| && buf[..n] == LowDigits(value, base, upper) && buf[n] == 0
    ensures buf[n + 1..] == old(buf[n + 1..])
  {
    ghost var low := LowDigits(value, base, upper);
    var v: nat := value;
    n := 0;
    while v != 0
      invariant n <= |low| && buf[..n] == low[..n] && LowDigits(v, base, upper) == low[n..]
      invariant buf[n..] == old(buf[n..])
      decreases v
    {
      v := PutDigit(buf, n, v, base, upper, low);
      n := n + 1;
    }
    assert n == |low|;
    buf[n] := 0;
  }

  /** One iteration of the first loop: the low digit of v at n, and v divided by the base. */
  method PutDigit(buf: array<byte>, n: nat, v: nat, base: nat, upper: bool, ghost low: seq<byte>) returns (v': nat)
    requires 2 <= base <= 16 && v != 0 && n <= |low| < buf.Length
    requires buf[..n] == low[..n] && LowDigits(v, base, upper) == low[n..]
    modifies buf
    ensures n < |low| && buf[..n + 1] == low[..n + 1] && LowDigits(v', base, upper) == low[n + 1..]
    ensures buf[n + 1..] == old(buf[n + 1..]) && v' < v
  {
    DivStep(v, base);
    var c := DigitChar(v % base, upper);
    assert LowDigits(v, base, upper) == [c] + LowDigits(v / base, base, upper);
    buf[n] := c;
    v' := v / base;
  }

  /**
   * The second loop: the first n bytes reversed by two pointers that meet
   * in the middle; hi is where the upper one stops.
   */
  method ReverseInPlace(buf: array<byte>, n: nat) returns (hi: int)
    requires n < buf.Length
    modifies buf
    ensures buf[..n] == Reverse(old(buf[..n])) && buf[n..] == old(buf[n..])
    ensures hi + 1 == (n + 1) / 2
  {
    ghost var s := buf[..n];
    var lo := 0;
    hi := n - 1;
    while lo < hi
      invariant 0 <= lo <= hi + 1 <= n && lo + hi == n - 1
      invariant forall i :: 0 <= i < lo ==> buf[i] == s[n - 1 - i]
      invariant forall i :: hi < i < n ==> buf[i] == s[n - 1 - i]
      invariant forall i :: lo <= i <= hi ==> buf[i] == s[i]
      invariant buf[n..] == old(buf[n..])
    {
      buf[lo], buf[hi] := buf[hi], buf[lo];
      lo, hi := lo + 1, hi - 1;
    }
    forall i | 0 <= i < n
      ensures buf[i] == Reverse(s)[i]
    {
      ReverseAt(s, i);
    }
  }

  /**
   * int_to_string as written: the digits of value, NUL-terminated, but the
   * length returned is computed from the pointer the reversal moved, so
   * it is half the digit count rounded up.
   */
  method IntToString(buf: array<byte>, value: nat, base: nat, upper: bool) returns (len: int)
    requires 2 <= base <= 16 && |Digits(value, base, upper)| < buf.Length
    modifies buf
    ensures var n := |Digits(value, base, upper)|;
      buf[..n] == Digits(value, base, upper) && buf[n] == 0 && buf[n + 1..] == old(buf[n + 1..]) &&
      len == (n + 1) / 2
    ensures 0 <= len && buf[..len] == Shown(value, base, upper, false)
  {
    if value == 0 {
      buf[0] := '0' as int;
      buf[1] := 0;
      return 1;
    }
    var n, hi := WriteDigits(buf, value, base, upper);
    len := hi + 1;
    assert buf[..len] == buf[..n][..len];
  }

  /** 123 has three digits, and int_to_string reports two. */
  lemma ShortLength()
    ensures |Digits(123, 10, false)| == 3 && (|Digits(123, 10, false)| + 1) / 2 == 2
  {
    assert LowDigits(123, 10, false) == ['3' as int, '2' as int, '1' as int];
  }

  /** int_to_string returning the digit count, the length of the text it wrote. */
  method IntToStringFixed(buf: array<byte>, value: nat, base: nat, upper: bool) returns (len: nat)
    requires 2 <= base <= 16 && |Digits(value, base, upper)| < buf.Length
    modifies buf
    ensures len == |Digits(value, base, upper)| && buf[..len] == Digits(value, base, upper) && buf[len] == 0
    ensures buf[len + 1..] == old(buf[len + 1..])
    ensures Value(buf[..len], base) == value
  {
    if value == 0 {
      buf[0] := '0' as int;
      buf[1] := 0;
      len := 1;
    } else {
      var hi;
      len, hi := WriteDigits(buf, value, base, upper);
    }
    ghost var ds := buf[..len];
    assert ds == Digits(value, base, upper);
    DigitsValue(value, base, upper);
  }

  // ---------------------------------------------------------------------
  // Conversion specifications: parse_flags
  // ---------------------------------------------------------------------

  /** format_flags_t: the flags, width, precision and length modifier of one conversion. */
  datatype Flags = Flags(left: bool, plus: bool, space: bool, prefix: bool, zero: bool,
                         width: int, precision: int, length: byte)

  /**
   * The byte at offset i of the format. The format is the memory from the
   * format pointer on; a read past what is modelled sees a terminator.
   */
  function At(fmt: seq<byte>, i: nat): byte
  {
    if i < |fmt| then fmt[i] else 0
  }

  predicate IsFlag(c: byte)
  {
    c == '-' as int || c == '+' as int || c == ' ' as int || c == '#' as int || c == '0' as int
  }

  predicate IsDigit(c: byte)
  {
    '0' as int <= c <= '9' as int
  }

  predicate IsLength(c: byte)
  {
    c == 'h' as int || c == 'l' as int || c == 'L' as int
  }

  /** Where the run of flag characters starting at i ends. */
  function FlagEnd(fmt: seq<byte>, i: nat): (e: nat)
    ensures i <= e && (i <= |fmt| ==> e <= |fmt|)
    decreases |fmt| - i
  {
    if i < |fmt| && IsFlag(fmt[i]) then FlagEnd(fmt, i + 1) else i
  }

  /** Where the run of decimal digits starting at i ends. */
  function DigitEnd(fmt: seq<byte>, i: nat): (e: nat)
    ensures i <= e && (i <= |fmt| ==> e <= |fmt|)
    decreases |fmt| - i
  {
    if i < |fmt| && IsDigit(fmt[i]) then DigitEnd(fmt, i + 1) else i
  }

  /** The run of flags: every byte of it is a flag, and the byte after it is not. */
  lemma {:induction false} FlagRun(fmt: seq<byte>, i: nat)
    requires i <= |fmt|
    ensures forall k :: i <= k < FlagEnd(fmt, i) ==> IsFlag(fmt[k])
    ensures !IsFlag(At(fmt, FlagEnd(fmt, i)))
    decreases |fmt| - i
  {
    if i < |fmt| && IsFlag(fmt[i]) {
      FlagRun(fmt, i + 1);
    }
  }

  /** The run of digits: every byte of it is a digit, and the byte after it is not. */
  lemma {:induction false} DigitRun(fmt: seq<byte>, i: nat)
    requires i <= |fmt|
    ensures forall k :: i <= k < DigitEnd(fmt, i) ==> IsDigit(fmt[k])
    ensures !IsDigit(At(fmt, DigitEnd(fmt, i)))
    decreases |fmt| - i
  {
    if i < |fmt| && IsDigit(fmt[i]) {
      DigitRun(fmt, i + 1);
    }
  }

  /** The width: its decimal value when the next byte is 1-9, -2 for `*`, else -1; and where it ends. */
  function WidthField(fmt: seq<byte>, f: nat): (r: (int, nat))
    requires f <= |fmt|
    ensures f <= r.1 <= |fmt|
  {
    if '1' as int <= At(fmt, f) <= '9' as int then (Value(fmt[f..DigitEnd(fmt, f)], 10), DigitEnd(fmt, f))
    else if At(fmt, f) == '*' as int then (-2, f + 1)
    else (-1, f)
  }

  /** The precision: after a `.`, -2 for `*` or the value of the digits (0 for none); else -1. */
  function PrecisionField(fmt: seq<byte>, w: nat): (r: (int, nat))
    requires w <= |fmt|
    ensures w <= r.1 <= |fmt|
  {
    if At(fmt, w) != '.' as int then (-1, w)
    else if At(fmt, w + 1) == '*' as int then (-2, w + 2)
    else (Value(fmt[w + 1..DigitEnd(fmt, w + 1)], 10), DigitEnd(fmt, w + 1))
  }

  /**
   * What parse_flags reads from a conversion specification starting at
   * pos, and where it stops: a run of flags, each set iff it occurs in the
   * run, then the width, the precision, and one optional h, l or L (NUL
   * when absent).
   */
  function ParseSpec(fmt: seq<byte>, pos: nat): (r: (Flags, nat))
    requires pos <= |fmt|
    ensures pos <= r.1 <= |fmt|
  {
    var f := FlagEnd(fmt, pos);
    var run := fmt[pos..f];
    var width := WidthField(fmt, f);
    var precision := PrecisionField(fmt, width.1);
    var p := precision.1;
    var length := if IsLength(At(fmt, p)) then At(fmt, p) else 0;
    (Flags('-' as int in run, '+' as int in run, ' ' as int in run, '#' as int in run, '0' as int in run,
           width.0, precision.0, length), if IsLength(At(fmt, p)) then p + 1 else p)
  }

  /** A specification that starts with its conversion letter has the defaults and consumes nothing. */
  lemma ParseDefaults(fmt: seq<byte>, pos: nat)
    requires pos < |fmt|
    requires !IsFlag(fmt[pos]) && !IsDigit(fmt[pos]) && !IsLength(fmt[pos])
    requires fmt[pos] != '*' as int && fmt[pos] != '.' as int
    ensures ParseSpec(fmt, pos) == (Flags(false, false, false, false, false, -1, -1, 0), pos)
  {
    assert FlagEnd(fmt, pos) == pos;
    assert fmt[pos..pos] == [];
  }

  /** A decimal field's value is never negative. */
  lemma {:induction false} DecimalValue(ds: seq<byte>)
    requires forall k :: 0 <= k < |ds| ==> IsDigit(ds[k])
    ensures Value(ds, 10) >= 0
  {
    if ds != [] {
      DecimalValue(ds[..|ds| - 1]);
    }
  }

  /** The width and precision parse_flags reads are -2 (`*`), -1 (absent) or a decimal value. */
  lemma ParsedFields(fmt: seq<byte>, pos: nat)
    requires pos <= |fmt|
    ensures ParseSpec(fmt, pos).0.width >= -2 && ParseSpec(fmt, pos).0.precision >= -2
    ensures IsLength(ParseSpec(fmt, pos).0.length) || ParseSpec(fmt, pos).0.length == 0
  {
    var f := FlagEnd(fmt, pos);
    DigitRun(fmt, f);
    DecimalValue(fmt[f..DigitEnd(fmt, f)]);
    var w := WidthField(fmt, f).1;
    if w + 1 <= |fmt| {
      DigitRun(fmt, w + 1);
      DecimalValue(fmt[w + 1..DigitEnd(fmt, w + 1)]);
    }
  }

  /** parse_flags: the flag loop, the width, the precision and the length modifier, in that order. */
  method ParseFlags(fmt: seq<byte>, pos: nat) returns (flags: Flags, next: nat)
    requires pos <= |fmt|
    ensures (flags, next) == ParseSpec(fmt, pos)
  {
    var p;
    flags, p := ReadFlags(fmt, pos);
    var width, w := ReadWidth(fmt, p);
    var precision, q := ReadPrecision(fmt, w);
    flags := flags.(width := width, precision := precision);
    next := q;
    if At(fmt, q) == 'h' as int || At(fmt, q) == 'l' as int || At(fmt, q) == 'L' as int {
      flags := flags.(length := fmt[q]);
      next := q + 1;
    }
  }

  /** The flag loop of parse_flags, from the defaults on. */
  method ReadFlags(fmt: seq<byte>, pos: nat) returns (flags: Flags, p: nat)
    requires pos <= |fmt|
    ensures p == FlagEnd(fmt, pos)
    ensures flags == Flags('-' as int in fmt[pos..p], '+' as int in fmt[pos..p], ' ' as int in fmt[pos..p],
                           '#' as int in fmt[pos..p], '0' as int in fmt[pos..p], -1, -1, 0)
  {
    flags := Flags(false, false, false, false, false, -1, -1, 0);
    p := pos;
    while At(fmt, p) == '-' as int || At(fmt, p) == '+' as int || At(fmt, p) == ' ' as int
       || At(fmt, p) == '#' as int || At(fmt, p) == '0' as int
      invariant pos <= p <= |fmt| && FlagEnd(fmt, p) == FlagEnd(fmt, pos)
      invariant flags == Flags('-' as int in fmt[pos..p], '+' as int in fmt[pos..p], ' ' as int in fmt[pos..p],
                               '#' as int in fmt[pos..p], '0' as int in fmt[pos..p], -1, -1, 0)
      decreases |fmt| - p
    {
      var c := fmt[p];
      if c == '-' as int {
        flags := flags.(left := true);
      } else if c == '+' as int {
        flags := flags.(plus := true);
      } else if c == ' ' as int {
        flags := flags.(space := true);
      } else if c == '#' as int {
        flags := flags.(prefix := true);
      } else {
        flags := flags.(zero := true);
      }
      assert fmt[pos..p + 1] == fmt[pos..p] + [c];
      p := p + 1;
    }
  }

  /** The decimal digits from i on, accumulated as `n = n * 10 + digit`. */
  method ReadDecimal(fmt: seq<byte>, i: nat) returns (n: int, e: nat)
    requires i <= |fmt|
    ensures e == DigitEnd(fmt, i) && n == Value(fmt[i..e], 10)
  {
    n, e := 0, i;
    while At(fmt, e) >= '0' as int && At(fmt, e) <= '9' as int
      invariant i <= e <= |fmt| && DigitEnd(fmt, e) == DigitEnd(fmt, i)
      invariant n == Value(fmt[i..e], 10)
      decreases |fmt| - e
    {
      assert fmt[i..e + 1][..e - i] == fmt[i..e];
      n := n * 10 + (fmt[e] - '0' as int);
      e := e + 1;
    }
  }

  /** The width part of parse_flags. */
  method ReadWidth(fmt: seq<byte>, f: nat) returns (width: int, w: nat)
    requires f <= |fmt|
    ensures (width, w) == WidthField(fmt, f)
  {
    if At(fmt, f) >= '1' as int && At(fmt, f) <= '9' as int {
      width, w := ReadDecimal(fmt, f);
    } else if At(fmt, f) == '*' as int {
      width, w := -2, f + 1;
    } else {
      width, w := -1, f;
    }
  }

  /** The precision part of parse_flags. */
  method ReadPrecision(fmt: seq<byte>, w: nat) returns (precision: int, p: nat)
    requires w <= |fmt|
    ensures (precision, p) == PrecisionField(fmt, w)
  {
    precision, p := -1, w;
    if At(fmt, w) == '.' as int {
      if At(fmt, w + 1) == '*' as int {
        precision, p := -2, w + 2;
      } else {
        precision, p := ReadDecimal(fmt, w + 1);
      }
    }
  }

  // ---------------------------------------------------------------------
  // Emission: the guarded loops and the unguarded stores
  // ---------------------------------------------------------------------

  /**
   * One part of a conversion's output: a padding loop writing n copies of
   * c (none when n <= 0), a copy loop over a text, or bytes stored by
   * single unguarded writes.
   */
  datatype Piece = Fill(c: byte, n: int) | Text(s: seq<byte>) | Raw(s: seq<byte>)

  function Max0(n: int): nat
  {
    if n > 0 then n else 0
  }

  function Min(a: nat, b: nat): nat
  {
    if a < b then a else b
  }

  /** How many more bytes the guard `written < (int)max_size - 1` lets through. */
  function Room(w: nat, limit: int): nat
  {
    Max0(limit - w)
  }

  function Rep(c: byte, n: nat): (r: seq<byte>)
    ensures |r| == n && forall i :: 0 <= i < n ==> r[i] == c
  {
    seq(n, _ => c)
  }

  /** The full text of a piece, with no limit. */
  function Whole(p: Piece): seq<byte>
  {
    match p
    case Fill(c, n) => Rep(c, Max0(n))
    case Text(s) => s
    case Raw(s) => s
  }

  /**
   * What a piece appends when w bytes are written: a guarded loop stops
   * at the limit, an unguarded store does not, unless strict (every write
   * guarded).
   */
  function Emit1(p: Piece, w: nat, limit: int, strict: bool): seq<byte>
  {
    if p.Raw? && !strict then p.s
    else Whole(p)[..Min(|Whole(p)|, Room(w, limit))]
  }

  /** What the pieces append one after the other, from w bytes written on. */
  function Emit(ps: seq<Piece>, w: nat, limit: int, strict: bool): seq<byte>
    decreases |ps|
  {
    if ps == [] then []
    else
      var e := Emit1(ps[0], w, limit, strict);
      e + Emit(ps[1..], w + |e|, limit, strict)
  }

  /** The rendering of the pieces with no limit. */
  function Render(ps: seq<Piece>): seq<byte>
    decreases |ps|
  {
    if ps == [] then [] else Whole(ps[0]) + Render(ps[1..])
  }

  /** Total length of the unguarded stores among the pieces. */
  function RawLen(ps: seq<Piece>): nat
    decreases |ps|
  {
    if ps == [] then 0 else (if ps[0].Raw? then |ps[0].s| else 0) + RawLen(ps[1..])
  }

  /** The pieces from k on: piece k's output, then the rest after it. */
  lemma EmitFront(ps: seq<Piece>, k: nat, w: nat, limit: int, strict: bool)
    requires k < |ps|
    ensures Emit(ps[k..], w, limit, strict) ==
      Emit1(ps[k], w, limit, strict) + Emit(ps[k + 1..], w + |Emit1(ps[k], w, limit, strict)|, limit, strict)
  {
    assert ps[k..][1..] == ps[k + 1..];
  }

  /** Emitting pieces 0..k-1 from out0 led to o, and the rest is still to come. */
  ghost predicate Pending(out0: seq<byte>, ps: seq<Piece>, k: nat, o: seq<byte>, limit: int, strict: bool)
  {
    k <= |ps| && out0 + Emit(ps, |out0|, limit, strict) == o + Emit(ps[k..], |o|, limit, strict)
  }

  lemma PendingStart(out0: seq<byte>, ps: seq<Piece>, limit: int, strict: bool)
    ensures Pending(out0, ps, 0, out0, limit, strict)
  {
    assert ps[0..] == ps;
  }

  lemma PendingNext(out0: seq<byte>, ps: seq<Piece>, k: nat, o: seq<byte>, o': seq<byte>, limit: int, strict: bool)
    requires Pending(out0, ps, k, o, limit, strict) && k < |ps|
    requires o' == o + Emit1(ps[k], |o|, limit, strict)
    ensures Pending(out0, ps, k + 1, o', limit, strict)
  {
    EmitFront(ps, k, |o|, limit, strict);
  }

  lemma PendingDone(out0: seq<byte>, ps: seq<Piece>, o: seq<byte>, limit: int, strict: bool)
    requires Pending(out0, ps, |ps|, o, limit, strict)
    ensures o == out0 + Emit(ps, |out0|, limit, strict)
  {
    assert ps[|ps|..] == [];
  }

  /**
   * With every write guarded, the output is exactly the part of the full
   * rendering that fits the room left.
   */
  lemma {:induction false} StrictPrefix(ps: seq<Piece>, w: nat, limit: int)
    ensures Emit(ps, w, limit, true) == Render(ps)[..Min(|Render(ps)|, Room(w, limit))]
    decreases |ps|
  {
    if ps != [] {
      var whole, rest := Whole(ps[0]), Render(ps[1..]);
      var e := Emit1(ps[0], w, limit, true);
      StrictPrefix(ps[1..], w + |e|, limit);
      assert Render(ps) == whole + rest;
      if |e| < |whole| {
        assert Room(w + |e|, limit) == 0;
      }
    }
  }

  /** When the room covers the whole rendering, the limit makes no difference. */
  lemma {:induction false} EmitRoomy(ps: seq<Piece>, w: nat, limit: int, strict: bool)
    requires |Render(ps)| <= Room(w, limit)
    ensures Emit(ps, w, limit, strict) == Render(ps)
    decreases |ps|
  {
    if ps != [] {
      var e := Emit1(ps[0], w, limit, strict);
      assert e == Whole(ps[0]);
      EmitRoomy(ps[1..], w + |e|, limit, strict);
    }
  }

  /**
   * The guarded loops never pass the limit; only the unguarded stores
   * write beyond it, by at most their own length.
   */
  lemma {:induction false} EmitBound(ps: seq<Piece>, w: nat, limit: int)
    ensures w + |Emit(ps, w, limit, false)| <= (if w < limit then limit else w) + RawLen(ps)
    decreases |ps|
  {
    if ps != [] {
      var e := Emit1(ps[0], w, limit, false);
      EmitBound(ps[1..], w + |e|, limit);
    }
  }

  /** A padding loop: c is written while the width exceeds the bound and the guard holds. */
  method Pad(out: seq<byte>, c: byte, width: int, bound: int, limit: int) returns (o: seq<byte>, wd: int)
    ensures o == out + Emit1(Fill(c, width - bound), |out|, limit, false)
    ensures wd == width - (|o| - |out|)
  {
    o, wd := out, width;
    while wd > bound && |o| < limit
      invariant |out| <= |o| && o == out + Rep(c, |o| - |out|) && wd == width - (|o| - |out|)
      invariant |o| - |out| <= Max0(width - bound) && |o| - |out| <= Room(|out|, limit)
      decreases wd - bound
    {
      o := o + [c];
      wd := wd - 1;
    }
  }

  /** A copy loop: the bytes of s while the guard holds. */
  method CopyText(out: seq<byte>, s: seq<byte>, limit: int) returns (o: seq<byte>)
    ensures o == out + Emit1(Text(s), |out|, limit, false)
  {
    o := out;
    var i := 0;
    while i < |s| && |o| < limit
      invariant i <= |s| && i <= Room(|out|, limit) && o == out + s[..i]
    {
      assert s[..i + 1] == s[..i] + [s[i]];
      o := o + [s[i]];
      i := i + 1;
    }
  }

  // ---------------------------------------------------------------------
  // Conversions
  // ---------------------------------------------------------------------

  /**
   * The digits a numeric conversion copies: the first `len` bytes of
   * num_buffer, with len as int_to_string returns it; strict copies them
   * all.
   */
  function Shown(v: nat, base: nat, upper: bool, strict: bool): seq<byte>
    requires 2 <= base <= 16
  {
    var ds := Digits(v, base, upper);
    if strict then ds else ds[..(|ds| + 1) / 2]
  }

  /**
   * %d, %i, %u, %x, %X and %o: spaces up to the width before a prefix (the
   * sign, `0x` or `0`) unless `-` or `0` was given, the prefix, zeros
   * while the width exceeds the digit count (strict: the digits and the
   * prefix), the digits, and spaces after them when `-` was given.
   */
  function NumberPieces(f: Flags, prefix: seq<byte>, ds: seq<byte>, strict: bool): seq<Piece>
  {
    var total := |ds| + |prefix|;
    [Fill(' ' as int, if !f.left && !f.zero then f.width - total else 0),
     Raw(prefix),
     Fill('0' as int, if !f.left && f.zero then f.width - (if strict then total else |ds|) else 0),
     Text(ds),
     Fill(' ' as int, if f.left then f.width - total else 0)]
  }

  /** %s and a NULL %p: the text with spaces up to the width, before it unless `-` was given. */
  function TextPieces(f: Flags, t: seq<byte>): seq<Piece>
  {
    [Fill(' ' as int, if !f.left then f.width - |t| else 0),
     Text(t),
     Fill(' ' as int, if f.left then f.width - |t| else 0)]
  }

  /** A non-NULL %p: spaces up to the width unless `-`, `0x`, the hex digits, spaces when `-`. */
  function PointerPieces(f: Flags, ds: seq<byte>): seq<Piece>
  {
    [Fill(' ' as int, if !f.left then f.width - (|ds| + 2) else 0),
     Raw(['0' as int, 'x' as int]),
     Text(ds),
     Fill(' ' as int, if f.left then f.width - (|ds| + 2) else 0)]
  }

  /** A variadic argument: an integer or pointer, or a string (its bytes before the terminator, or NULL). */
  datatype Arg = Int(n: int) | Str(s: Option<seq<byte>>)

  /** `va_arg` of an integer type; an absent or mismatched argument reads as 0. */
  function IntArg(args: seq<Arg>, i: nat): int
  {
    if i < |args| && args[i].Int? then args[i].n else 0
  }

  /** `va_arg` of `const char*`; an absent or mismatched argument reads as NULL. */
  function StrArg(args: seq<Arg>, i: nat): Option<seq<byte>>
  {
    if i < |args| && args[i].Str? then args[i].s else None
  }

  /** Two's complement reading of n modulo m = 2^bits. */
  function Signed(n: int, m: nat): (r: int)
    requires m >= 2 && m % 2 == 0
    ensures -(m / 2) <= r < m / 2
  {
    var u := n % m;
    if u >= m / 2 then u - m else u
  }

  /** The int64_t value of a %d argument: `long`, `(short)int` or `int`. */
  function SignedValue(length: byte, n: int): (r: int)
    ensures -(U64 / 2) <= r < U64 / 2
  {
    if length == 'l' as int then Signed(n, U64)
    else if length == 'h' as int then Signed(n, U16)
    else Signed(n, U32)
  }

  /** The uint64_t value of a %u, %x or %o argument: `unsigned long`, `(unsigned short)` or `unsigned int`. */
  function UnsignedValue(length: byte, n: int): (r: nat)
    ensures r < U64
  {
    if length == 'l' as int then n % U64
    else if length == 'h' as int then n % U16
    else n % U32
  }

  const NullText: seq<byte> := ['(' as int, 'n' as int, 'u' as int, 'l' as int, 'l' as int, ')' as int]
  const NilText: seq<byte> := ['(' as int, 'n' as int, 'i' as int, 'l' as int, ')' as int]

  /** The %s text: "(null)" for NULL, cut to the precision when one is given. */
  function StringText(s: Option<seq<byte>>, precision: int): seq<byte>
  {
    var t := if s.None? then NullText else s.value;
    if precision >= 0 && |t| > precision then t[..precision] else t
  }

  /** The sign %d writes: `-` for a negative value, else `+` or a space as the flags ask. */
  function Sign(f: Flags, v: int): seq<byte>
  {
    if v < 0 then ['-' as int]
    else if f.plus then ['+' as int]
    else if f.space then [' ' as int]
    else []
  }

  /** The `#` prefix of %x, %X and %o, for a value other than 0. */
  function AltPrefix(f: Flags, v: nat, spec: byte): seq<byte>
  {
    if !f.prefix || v == 0 then []
    else if spec == 'o' as int then ['0' as int]
    else ['0' as int, spec]
  }

  /**
   * The pieces one conversion writes and the index of the next argument:
   * the case of the specifier switch of vsprintf_internal.
   */
  function Conversion(spec: byte, f: Flags, args: seq<Arg>, ai: nat, strict: bool): (r: (seq<Piece>, nat))
  {
    if spec == 'c' as int then ([Raw([IntArg(args, ai) % 256])], ai + 1)
    else if spec == 's' as int then (TextPieces(f, StringText(StrArg(args, ai), f.precision)), ai + 1)
    else if spec == 'd' as int || spec == 'i' as int then
      var v := SignedValue(f.length, IntArg(args, ai));
      (NumberPieces(f, Sign(f, v), Shown(if v < 0 then -v else v, 10, false, strict), strict), ai + 1)
    else if spec == 'u' as int then
      (NumberPieces(f, [], Shown(UnsignedValue(f.length, IntArg(args, ai)), 10, false, strict), strict), ai + 1)
    else if spec == 'x' as int || spec == 'X' as int || spec == 'o' as int then
      var v := UnsignedValue(f.length, IntArg(args, ai));
      var base := if spec == 'o' as int then 8 else 16;
      (NumberPieces(f, AltPrefix(f, v, spec), Shown(v, base, spec == 'X' as int, strict), strict), ai + 1)
    else if spec == 'p' as int then
      var v := IntArg(args, ai) % U64;
      (if v == 0 then TextPieces(f, NilText) else PointerPieces(f, Shown(v, 16, false, strict)), ai + 1)
    else if spec == 'n' as int then ([], ai + 1)
    else ([Raw(['%' as int, spec])], ai)
  }

  /** RawLen taken one piece at a time. */
  lemma RawLenCons(p: Piece, ps: seq<Piece>)
    ensures RawLen([p] + ps) == (if p.Raw? then |p.s| else 0) + RawLen(ps)
  {
    assert ([p] + ps)[1..] == ps;
  }

  lemma NumberRaw(f: Flags, prefix: seq<byte>, ds: seq<byte>, strict: bool)
    ensures RawLen(NumberPieces(f, prefix, ds, strict)) == |prefix|
  {
    var ps := NumberPieces(f, prefix, ds, strict);
    assert ps == [ps[0]] + ([ps[1]] + ([ps[2]] + ([ps[3]] + ([ps[4]] + []))));
    RawLenCons(ps[4], []);
    RawLenCons(ps[3], [ps[4]] + []);
    RawLenCons(ps[2], [ps[3]] + ([ps[4]] + []));
    RawLenCons(ps[1], [ps[2]] + ([ps[3]] + ([ps[4]] + [])));
    RawLenCons(ps[0], [ps[1]] + ([ps[2]] + ([ps[3]] + ([ps[4]] + []))));
  }

  lemma TextRaw(f: Flags, t: seq<byte>)
    ensures RawLen(TextPieces(f, t)) == 0
  {
    var ps := TextPieces(f, t);
    assert ps == [ps[0]] + ([ps[1]] + ([ps[2]] + []));
    RawLenCons(ps[2], []);
    RawLenCons(ps[1], [ps[2]] + []);
    RawLenCons(ps[0], [ps[1]] + ([ps[2]] + []));
  }

  lemma PointerRaw(f: Flags, ds: seq<byte>)
    ensures RawLen(PointerPieces(f, ds)) == 2
  {
    var ps := PointerPieces(f, ds);
    assert ps == [ps[0]] + ([ps[1]] + ([ps[2]] + ([ps[3]] + [])));
    RawLenCons(ps[3], []);
    RawLenCons(ps[2], [ps[3]] + []);
    RawLenCons(ps[1], [ps[2]] + ([ps[3]] + []));
    RawLenCons(ps[0], [ps[1]] + ([ps[2]] + ([ps[3]] + [])));
  }

  /** A conversion stores at most two bytes without the guard. */
  lemma ConversionRaw(spec: byte, f: Flags, args: seq<Arg>, ai: nat, strict: bool)
    ensures RawLen(Conversion(spec, f, args, ai, strict).0) <= 2
  {
    var ps := Conversion(spec, f, args, ai, strict).0;
    if spec == 'c' as int || !(spec == 's' as int || spec == 'd' as int || spec == 'i' as int || spec == 'u' as int
      || spec == 'x' as int || spec == 'X' as int || spec == 'o' as int || spec == 'p' as int || spec == 'n' as int) {
      RawLenCons(ps[0], []);
      assert ps == [ps[0]] + [];
    } else if spec == 's' as int {
      TextRaw(f, StringText(StrArg(args, ai), f.precision));
    } else if spec == 'p' as int {
      var v := IntArg(args, ai) % U64;
      TextRaw(f, NilText);
      PointerRaw(f, Shown(v, 16, false, strict));
    } else if spec == 'n' as int {
    } else {
      var ds, prefix :| ps == NumberPieces(f, prefix, ds, strict) && |prefix| <= 2;
      NumberRaw(f, prefix, ds, strict);
    }
  }

  /**
   * The loops and stores of one case of the specifier switch, in order:
   * a padding loop per Fill (its width counted down to the bound), a copy
   * loop per Text, unguarded stores per Raw.
   */
  method EmitPieces(out: seq<byte>, ps: seq<Piece>, limit: int) returns (o: seq<byte>)
    ensures o == out + Emit(ps, |out|, limit, false)
  {
    o := out;
    PendingStart(out, ps, limit, false);
    var k := 0;
    while k < |ps|
      invariant k <= |ps| && Pending(out, ps, k, o, limit, false)
      decreases |ps| - k
    {
      ghost var before := o;
      match ps[k] {
        case Fill(c, n) =>
          var rest;
          o, rest := Pad(o, c, n, 0, limit);
        case Text(t) =>
          o := CopyText(o, t, limit);
        case Raw(t) =>
          o := o + t;
      }
      PendingNext(out, ps, k, before, o, limit, false);
      k := k + 1;
    }
    PendingDone(out, ps, o, limit, false);
  }

  /** The numeric cases: int_to_string into num_buffer, then the padding, prefix and copy loops. */
  method FormatNumber(out: seq<byte>, f: Flags, prefix: seq<byte>, value: nat, base: nat, upper: bool, limit: int)
    returns (o: seq<byte>)
    requires value < U64 && 8 <= base <= 16
    ensures o == out + Emit(NumberPieces(f, prefix, Shown(value, base, upper, false), false), |out|, limit, false)
  {
    var buf := new byte[32];
    DigitsFit(value, base, upper);
    var len := IntToString(buf, value, base, upper);
    o := EmitPieces(out, NumberPieces(f, prefix, buf[..len], false), limit);
  }

  /** A non-NULL %p: int_to_string in base 16, then the padding loops around `0x` and the copy loop. */
  method FormatPointer(out: seq<byte>, f: Flags, value: nat, limit: int) returns (o: seq<byte>)
    requires value < U64
    ensures o == out + Emit(PointerPieces(f, Shown(value, 16, false, false)), |out|, limit, false)
  {
    var buf := new byte[32];
    DigitsFit(value, 16, false);
    var len := IntToString(buf, value, 16, false);
    o := EmitPieces(out, PointerPieces(f, buf[..len]), limit);
  }

  /** A single unguarded store appends its bytes whatever the room. */
  lemma EmitRaw(x: seq<byte>, w: nat, limit: int)
    ensures Emit([Raw(x)], w, limit, false) == x
  {
    assert [Raw(x)][1..] == [];
  }

  /** %d and %i: the sign, then the magnitude's decimal digits. */
  method ConvertSigned(out: seq<byte>, spec: byte, f: Flags, args: seq<Arg>, ai: nat, limit: int) returns (o: seq<byte>)
    requires spec == 'd' as int || spec == 'i' as int
    ensures o == out + Emit(Conversion(spec, f, args, ai, false).0, |out|, limit, false)
  {
    var v := SignedValue(f.length, IntArg(args, ai));
    var prefix := Sign(f, v);
    if v < 0 {
      v := -v;
    }
    o := FormatNumber(out, f, prefix, v, 10, false, limit);
  }

  /** %u, %x, %X and %o: the digits in base 10, 16 or 8, with the `#` prefix for the last three. */
  method ConvertUnsigned(out: seq<byte>, spec: byte, f: Flags, args: seq<Arg>, ai: nat, limit: int) returns (o: seq<byte>)
    requires spec in {'u' as int, 'x' as int, 'X' as int, 'o' as int}
    ensures o == out + Emit(Conversion(spec, f, args, ai, false).0, |out|, limit, false)
  {
    var v := UnsignedValue(f.length, IntArg(args, ai));
    if spec == 'u' as int {
      o := FormatNumber(out, f, [], v, 10, false, limit);
    } else if spec == 'o' as int {
      o := FormatNumber(out, f, AltPrefix(f, v, spec), v, 8, false, limit);
    } else {
      o := FormatNumber(out, f, AltPrefix(f, v, spec), v, 16, spec == 'X' as int, limit);
    }
  }

  /** %s: at most `precision` bytes of the string, or "(null)". */
  method ConvertString(out: seq<byte>, f: Flags, args: seq<Arg>, ai: nat, limit: int) returns (o: seq<byte>)
    ensures o == out + Emit(Conversion('s' as int, f, args, ai, false).0, |out|, limit, false)
  {
    var s := StrArg(args, ai);
    var t := if s.None? then NullText else s.value;
    var len := |t|;
    if f.precision >= 0 && len > f.precision {
      len := f.precision;
    }
    assert t[..len] == StringText(s, f.precision);
    assert Conversion('s' as int, f, args, ai, false).0 == TextPieces(f, t[..len]);
    o := EmitPieces(out, TextPieces(f, t[..len]), limit);
  }

  /** %p: "(nil)" for NULL, otherwise 0x and the hex digits. */
  method ConvertPointer(out: seq<byte>, f: Flags, args: seq<Arg>, ai: nat, limit: int) returns (o: seq<byte>)
    ensures o == out + Emit(Conversion('p' as int, f, args, ai, false).0, |out|, limit, false)
  {
    var v := IntArg(args, ai) % U64;
    if v == 0 {
      o := EmitPieces(out, TextPieces(f, NilText), limit);
    } else {
      o := FormatPointer(out, f, v, limit);
    }
  }

  /** The specifier switch of vsprintf_internal, after the `*` fields are read. */
  method Convert(out: seq<byte>, spec: byte, f: Flags, args: seq<Arg>, ai: nat, limit: int) returns (o: seq<byte>, next: nat)
    ensures o == out + Emit(Conversion(spec, f, args, ai, false).0, |out|, limit, false)
    ensures next == Conversion(spec, f, args, ai, false).1
  {
    next := ai + 1;
    if spec == 'c' as int {
      var c := IntArg(args, ai) % 256;
      o := out + [c];
      EmitRaw([c], |out|, limit);
    } else if spec == 's' as int {
      o := ConvertString(out, f, args, ai, limit);
    } else if spec == 'd' as int || spec == 'i' as int {
      o := ConvertSigned(out, spec, f, args, ai, limit);
    } else if spec in {'u' as int, 'x' as int, 'X' as int, 'o' as int} {
      o := ConvertUnsigned(out, spec, f, args, ai, limit);
    } else if spec == 'p' as int {
      o := ConvertPointer(out, f, args, ai, limit);
    } else if spec == 'n' as int {
      o := out;
    } else {
      o := out + ['%' as int, spec];
      EmitRaw(['%' as int, spec], |out|, limit);
      next := ai;
    }
  }

  // ---------------------------------------------------------------------
  // The formatting loop: vsprintf_internal and snprintf
  // ---------------------------------------------------------------------

  /** INT_MIN of a 32-bit int. */
  const IntMin: int := -0x8000_0000

  /** `(int)x` for a 32-bit int. */
  function Int32(x: int): int
  {
    Signed(x, U32)
  }

  /**
   * The `*` width and precision read from the arguments, in that order: a
   * negative width sets `-` and is negated (INT_MIN stays itself, as the
   * 32-bit negation wraps), a negative precision counts as none (-1).
   */
  function Stars(f: Flags, args: seq<Arg>, ai: nat): (r: (Flags, nat))
  {
    var (f1, a1) :=
      if f.width != -2 then (f, ai)
      else
        var w := Int32(IntArg(args, ai));
        (if w < 0 then f.(width := if w == IntMin then w else -w, left := true) else f.(width := w), ai + 1);
    if f1.precision != -2 then (f1, a1)
    else
      var p := Int32(IntArg(args, a1));
      (f1.(precision := if p < 0 then -1 else p), a1 + 1)
  }

  /** A `*` width becomes the argument's magnitude with `-` set when it is negative; a `*` precision is never negative but -1. */
  lemma StarsMeaning(f: Flags, args: seq<Arg>, ai: nat)
    requires f.width == -2
    ensures var w := Int32(IntArg(args, ai));
      var r := Stars(f, args, ai).0;
      (w >= 0 ==> r.width == w && r.left == f.left) &&
      (IntMin < w < 0 ==> r.width == -w && r.left) &&
      (f.precision == -2 ==> r.precision >= -1 && (r.precision == -1 <==> Int32(IntArg(args, ai + 1)) < 0))
  {
  }

  /** The width and precision part of vsprintf_internal's loop body. */
  method ReadStars(f: Flags, args: seq<Arg>, ai: nat) returns (f': Flags, ai': nat)
    ensures (f', ai') == Stars(f, args, ai)
  {
    f', ai' := f, ai;
    if f'.width == -2 {
      var w := Int32(IntArg(args, ai'));
      ai' := ai' + 1;
      f' := f'.(width := w);
      if w < 0 {
        f' := f'.(width := if w == IntMin then w else -w, left := true);
      }
    }
    if f'.precision == -2 {
      var p := Int32(IntArg(args, ai'));
      ai' := ai' + 1;
      f' := f'.(precision := p);
      if p < 0 {
        f' := f'.(precision := -1);
      }
    }
  }

  /** Where the formatter is: the format position, the next argument and the bytes written. */
  datatype State = State(pos: nat, arg: nat, out: seq<byte>)

  /**
   * A conversion specification starting at pos (after its `%`): its
   * pieces, the position after it and the next argument. The specifier
   * byte is consumed whatever it is; strict stops at a terminator where
   * the specifier should be, and writes the `%`.
   */
  function Directive(fmt: seq<byte>, args: seq<Arg>, strict: bool, pos: nat, ai: nat): (r: (seq<Piece>, nat, nat))
    requires pos <= |fmt|
    ensures pos <= r.1 <= |fmt| + 1
  {
    var (f0, q) := ParseSpec(fmt, pos);
    var (f, a) := Stars(f0, args, ai);
    var spec := At(fmt, q);
    if strict && spec == 0 then ([Raw(['%' as int])], q, a)
    else
      var (ps, a') := Conversion(spec, f, args, a, strict);
      (ps, q + 1, a')
  }

  /** One iteration of the loop: an ordinary byte is copied, `%%` writes `%`, anything else is a directive. */
  function Step(fmt: seq<byte>, args: seq<Arg>, limit: int, strict: bool, st: State): (r: State)
    requires st.pos < |fmt| && fmt[st.pos] != 0
    ensures st.pos < r.pos <= |fmt| + 1
  {
    var pos := st.pos;
    if fmt[pos] != '%' as int then State(pos + 1, st.arg, st.out + [fmt[pos]])
    else if At(fmt, pos + 1) == '%' as int then State(pos + 2, st.arg, st.out + ['%' as int])
    else
      var (ps, q, a) := Directive(fmt, args, strict, pos + 1, st.arg);
      State(q, a, st.out + Emit(ps, |st.out|, limit, strict))
  }

  /** The loop of vsprintf_internal from st: it runs while the format has a byte and the guard holds. */
  function Format(fmt: seq<byte>, args: seq<Arg>, limit: int, strict: bool, st: State): State
    decreases |fmt| + 1 - st.pos
  {
    if st.pos < |fmt| && fmt[st.pos] != 0 && |st.out| < limit then
      Format(fmt, args, limit, strict, Step(fmt, args, limit, strict, st))
    else st
  }

  /** The loop body of vsprintf_internal. */
  method FormatStep(fmt: seq<byte>, args: seq<Arg>, limit: int, st: State) returns (st': State)
    requires st.pos < |fmt| && fmt[st.pos] != 0
    ensures st' == Step(fmt, args, limit, false, st)
  {
    var pos, ai, out := st.pos, st.arg, st.out;
    if fmt[pos] != '%' as int {
      return State(pos + 1, ai, out + [fmt[pos]]);
    }
    pos := pos + 1;
    if At(fmt, pos) == '%' as int {
      return State(pos + 1, ai, out + ['%' as int]);
    }
    out, pos, ai := Directed(fmt, args, limit, pos, ai, out);
    st' := State(pos, ai, out);
  }

  /** The rest of the loop body after a `%` that does not start `%%`. */
  method Directed(fmt: seq<byte>, args: seq<Arg>, limit: int, pos: nat, ai: nat, out: seq<byte>)
    returns (o: seq<byte>, pos': nat, ai': nat)
    requires pos <= |fmt|
    ensures var (ps, q, a) := Directive(fmt, args, false, pos, ai);
      o == out + Emit(ps, |out|, limit, false) && pos' == q && ai' == a
  {
    var flags;
    flags, pos' := ParseFlags(fmt, pos);
    flags, ai' := ReadStars(flags, args, ai);
    var spec := At(fmt, pos');
    pos' := pos' + 1;
    o, ai' := Convert(out, spec, flags, args, ai', limit);
  }

  /** `(int)max_size - 1`: the last index the loop may write at. */
  function Limit(maxSize: nat): int
  {
    Int32(maxSize) - 1
  }

  /**
   * vsprintf_internal: the bytes written, then the terminator stored at
   * index `written`, which is returned.
   */
  method Vsprintf(fmt: seq<byte>, args: seq<Arg>, maxSize: nat) returns (buffer: seq<byte>, written: int)
    ensures var r := Format(fmt, args, Limit(maxSize), false, State(0, 0, []));
      buffer == r.out + [0] && written == |r.out|
  {
    var limit := Int32(maxSize) - 1;
    var st := State(0, 0, []);
    while At(fmt, st.pos) != 0 && |st.out| < limit
      invariant st.pos <= |fmt| + 1
      invariant Format(fmt, args, limit, false, st) == Format(fmt, args, limit, false, State(0, 0, []))
      decreases |fmt| + 1 - st.pos
    {
      st := FormatStep(fmt, args, limit, st);
    }
    written := |st.out|;
    buffer := st.out + [0];
  }

  /** snprintf: nothing is written and 0 returned for a NULL buffer or a size of 0. */
  method Snprintf(fmt: seq<byte>, args: seq<Arg>, bufferIsNull: bool, size: nat) returns (buffer: seq<byte>, written: int)
    ensures bufferIsNull || size == 0 ==> buffer == [] && written == 0
    ensures !bufferIsNull && size != 0 ==>
      var r := Format(fmt, args, Limit(size), false, State(0, 0, []));
      buffer == r.out + [0] && written == |r.out|
  {
    if bufferIsNull || size == 0 {
      return [], 0;
    }
    buffer, written := Vsprintf(fmt, args, size);
  }

  // ---------------------------------------------------------------------
  // What the loop writes
  // ---------------------------------------------------------------------

  /** The bytes from i up to the first terminator (or the end of what is modelled). */
  function Plain(fmt: seq<byte>, i: nat): (r: seq<byte>)
    ensures forall k :: 0 <= k < |r| ==> r[k] != 0
    decreases |fmt| - i
  {
    if i < |fmt| && fmt[i] != 0 then [fmt[i]] + Plain(fmt, i + 1) else []
  }

  /**
   * A format with no `%` left is copied as it stands up to its
   * terminator, cut where the guard stops the loop.
   */
  lemma {:induction false} PlainCopy(fmt: seq<byte>, args: seq<Arg>, limit: int, strict: bool, st: State)
    requires forall k :: st.pos <= k < |fmt| ==> fmt[k] != '%' as int
    ensures var t := Plain(fmt, st.pos);
      Format(fmt, args, limit, strict, st).out == st.out + t[..Min(|t|, Room(|st.out|, limit))]
    decreases |fmt| + 1 - st.pos
  {
    var t := Plain(fmt, st.pos);
    if st.pos < |fmt| && fmt[st.pos] != 0 && |st.out| < limit {
      var st' := Step(fmt, args, limit, strict, st);
      assert st' == State(st.pos + 1, st.arg, st.out + [fmt[st.pos]]);
      PlainCopy(fmt, args, limit, strict, st');
      assert t == [fmt[st.pos]] + Plain(fmt, st.pos + 1);
      assert t[..Min(|t|, Room(|st.out|, limit))] == [fmt[st.pos]] + t[1..][..Min(|t| - 1, Room(|st'.out|, limit))];
    }
  }

  /** One step from below the guard ends at most two bytes past it: only an unguarded store passes it. */
  lemma StepBound(fmt: seq<byte>, args: seq<Arg>, limit: int, st: State)
    requires st.pos < |fmt| && fmt[st.pos] != 0 && |st.out| < limit
    ensures |Step(fmt, args, limit, false, st).out| <= limit + 2
  {
    if fmt[st.pos] == '%' as int && At(fmt, st.pos + 1) != '%' as int {
      var ps := Directive(fmt, args, false, st.pos + 1, st.arg).0;
      DirectiveRaw(fmt, args, st.pos + 1, st.arg);
      EmitBound(ps, |st.out|, limit);
    }
  }

  /** A directive stores at most two bytes without the guard. */
  lemma DirectiveRaw(fmt: seq<byte>, args: seq<Arg>, pos: nat, ai: nat)
    requires pos <= |fmt|
    ensures RawLen(Directive(fmt, args, false, pos, ai).0) <= 2
  {
    var (f0, q) := ParseSpec(fmt, pos);
    var (f, a) := Stars(f0, args, ai);
    ConversionRaw(At(fmt, q), f, args, a, false);
  }

  lemma {:induction false} FormatGrowth(fmt: seq<byte>, args: seq<Arg>, limit: int, st: State)
    requires |st.out| <= Max0(limit) + 2
    ensures |Format(fmt, args, limit, false, st).out| <= Max0(limit) + 2
    decreases |fmt| + 1 - st.pos
  {
    if st.pos < |fmt| && fmt[st.pos] != 0 && |st.out| < limit {
      StepBound(fmt, args, limit, st);
      FormatGrowth(fmt, args, limit, Step(fmt, args, limit, false, st));
    }
  }

  /**
   * vsprintf_internal returns at most max_size + 1, so its terminator never
   * lands past index max_size + 1 (two bytes past a max_size-byte buffer).
   */
  lemma FormatBound(fmt: seq<byte>, args: seq<Arg>, maxSize: nat)
    requires 0 < maxSize < U32 / 2
    ensures |Format(fmt, args, Limit(maxSize), false, State(0, 0, [])).out| <= maxSize + 1
  {
    FormatGrowth(fmt, args, Limit(maxSize), State(0, 0, []));
  }

  /** "%y" in a 2-byte buffer: both bytes are written and the terminator lands at index 2, outside the buffer. */
  lemma UnguardedOverrun()
    ensures var r := Format(['%' as int, 'y' as int, 0], [], Limit(2), false, State(0, 0, []));
      r.out == ['%' as int, 'y' as int] && |r.out| == 2
  {
    var fmt: seq<byte> := ['%' as int, 'y' as int, 0];
    ParseDefaults(fmt, 1);
    var st := Step(fmt, [], 1, false, State(0, 0, []));
    EmitRaw(['%' as int, 'y' as int], 0, 1);
    assert st == State(2, 0, ['%' as int, 'y' as int]);
  }

  /** With every store guarded, a step from below the guard never passes it. */
  lemma StrictStepBound(fmt: seq<byte>, args: seq<Arg>, limit: int, st: State)
    requires st.pos < |fmt| && fmt[st.pos] != 0 && |st.out| < limit
    ensures |Step(fmt, args, limit, true, st).out| <= limit
  {
    if fmt[st.pos] == '%' as int && At(fmt, st.pos + 1) != '%' as int {
      var ps := Directive(fmt, args, true, st.pos + 1, st.arg).0;
      StrictPrefix(ps, |st.out|, limit);
    }
  }

  lemma {:induction false} StrictGrowth(fmt: seq<byte>, args: seq<Arg>, limit: int, st: State)
    requires |st.out| <= Max0(limit)
    ensures |Format(fmt, args, limit, true, st).out| <= Max0(limit)
    decreases |fmt| + 1 - st.pos
  {
    if st.pos < |fmt| && fmt[st.pos] != 0 && |st.out| < limit {
      StrictStepBound(fmt, args, limit, st);
      StrictGrowth(fmt, args, limit, Step(fmt, args, limit, true, st));
    }
  }

  /** Guarding every store keeps the bytes and the terminator inside a max_size-byte buffer. */
  lemma StrictBound(fmt: seq<byte>, args: seq<Arg>, maxSize: nat)
    requires 0 < maxSize < U32 / 2
    ensures |Format(fmt, args, Limit(maxSize), true, State(0, 0, [])).out| < maxSize
  {
    StrictGrowth(fmt, args, Limit(maxSize), State(0, 0, []));
  }

  /** The bytes from a up to b are none of them a terminator. */
  ghost predicate Unterminated(fmt: seq<byte>, a: nat, b: nat)
  {
    forall k :: a <= k < b ==> At(fmt, k) != 0
  }

  /** A conversion specification is read without crossing a terminator. */
  lemma ParseUnterminated(fmt: seq<byte>, pos: nat)
    requires pos <= |fmt|
    ensures Unterminated(fmt, pos, ParseSpec(fmt, pos).1)
  {
    var f := FlagEnd(fmt, pos);
    FlagRun(fmt, pos);
    DigitRun(fmt, f);
    var w := WidthField(fmt, f).1;
    if At(fmt, w) == '.' as int && At(fmt, w + 1) != '*' as int {
      DigitRun(fmt, w + 1);
    }
  }

  /** Strict reads the format only up to its terminator. */
  lemma {:induction false} StrictUnterminated(fmt: seq<byte>, args: seq<Arg>, limit: int, st: State)
    ensures Unterminated(fmt, st.pos, Format(fmt, args, limit, true, st).pos)
    decreases |fmt| + 1 - st.pos
  {
    if st.pos < |fmt| && fmt[st.pos] != 0 && |st.out| < limit {
      var st' := Step(fmt, args, limit, true, st);
      if fmt[st.pos] == '%' as int && At(fmt, st.pos + 1) != '%' as int {
        ParseUnterminated(fmt, st.pos + 1);
      }
      assert Unterminated(fmt, st.pos, st'.pos);
      StrictUnterminated(fmt, args, limit, st');
    }
  }

  /**
   * A `%` at the end of the format: the terminator is taken as the
   * specifier and written, and the loop goes on reading the memory after
   * it.
   */
  lemma TrailingPercent()
    ensures var fmt: seq<byte> := ['%' as int, 0, 'A' as int, 0];
      var r := Format(fmt, [], Limit(10), false, State(0, 0, []));
      r.out == ['%' as int, 0, 'A' as int] && !Unterminated(fmt, 0, r.pos)
  {
    var fmt: seq<byte> := ['%' as int, 0, 'A' as int, 0];
    assert FlagEnd(fmt, 1) == 1;
    assert fmt[1..1] == [];
    assert Directive(fmt, [], false, 1, 0) == ([Raw(['%' as int, 0])], 2, 0);
    EmitRaw(['%' as int, 0], 0, 9);
    var st1 := Step(fmt, [], 9, false, State(0, 0, []));
    assert st1 == State(2, 0, ['%' as int, 0]);
    var st2 := Step(fmt, [], 9, false, st1);
    assert st2 == State(3, 0, ['%' as int, 0, 'A' as int]);
    assert Format(fmt, [], 9, false, st2) == st2;
    assert At(fmt, 1) == 0;
  }

  // ---------------------------------------------------------------------
  // The fields the conversions write
  // ---------------------------------------------------------------------

  function Max(a: int, b: int): int
  {
    if a < b then b else a
  }

  lemma {:induction false} RenderAll(ps: seq<Piece>)
    ensures |ps| == 3 ==> Render(ps) == Whole(ps[0]) + Whole(ps[1]) + Whole(ps[2])
    ensures |ps| == 5 ==> Render(ps) == Whole(ps[0]) + Whole(ps[1]) + Whole(ps[2]) + Whole(ps[3]) + Whole(ps[4])
  {
    if |ps| == 3 || |ps| == 5 {
      assert Render(ps[|ps|..]) == [];
      assert Render(ps[|ps| - 1..]) == Whole(ps[|ps| - 1]) + Render(ps[|ps|..]);
      assert Render(ps[|ps| - 2..]) == Whole(ps[|ps| - 2]) + Render(ps[|ps| - 1..]);
      assert Render(ps[|ps| - 3..]) == Whole(ps[|ps| - 3]) + Render(ps[|ps| - 2..]);
      if |ps| == 5 {
        assert Render(ps[1..]) == Whole(ps[1]) + Render(ps[2..]);
        assert Render(ps) == Whole(ps[0]) + Render(ps[1..]);
      }
    }
  }

  /**
   * With the zero padding counting the prefix, a number's field is as
   * wide as the width asks (or the prefix and digits, if wider): the
   * digits end it unless `-`, the prefix and digits begin it with `-`,
   * and the prefix begins it with `0`.
   */
  lemma StrictNumberField(f: Flags, prefix: seq<byte>, ds: seq<byte>)
    ensures var r := Render(NumberPieces(f, prefix, ds, true));
      |r| == Max(f.width, |prefix| + |ds|) &&
      (!f.left ==> r[|r| - |ds|..] == ds) &&
      (f.left ==> r[..|prefix| + |ds|] == prefix + ds) &&
      (!f.left && f.zero ==> r[..|prefix|] == prefix)
  {
    var total := |prefix| + |ds|;
    var r := Render(NumberPieces(f, prefix, ds, true));
    var pad := Max0(f.width - total);
    NumberLayout(f, prefix, ds);
    if f.left {
      assert r[..total] == prefix + ds;
    } else if f.zero {
      assert r[|r| - |ds|..] == ds && r[..|prefix|] == prefix;
    } else {
      assert r[|r| - |ds|..] == ds;
    }
  }

  /** The three layouts of a strict number field. */
  lemma NumberLayout(f: Flags, prefix: seq<byte>, ds: seq<byte>)
    ensures var pad := Max0(f.width - (|prefix| + |ds|));
      var r := Render(NumberPieces(f, prefix, ds, true));
      (f.left ==> r == prefix + ds + Rep(' ' as int, pad)) &&
      (!f.left && f.zero ==> r == prefix + Rep('0' as int, pad) + ds) &&
      (!f.left && !f.zero ==> r == Rep(' ' as int, pad) + prefix + ds)
  {
    var ps := NumberPieces(f, prefix, ds, true);
    RenderAll(ps);
    assert Whole(Fill(' ' as int, 0)) == [] && Whole(Fill('0' as int, 0)) == [];
  }

  /**
   * As written, the zero padding counts only the digits: with `0` and a
   * sign or `#` prefix the field is the prefix wider than the width.
   */
  lemma ZeroPadOverrun(f: Flags, prefix: seq<byte>, ds: seq<byte>)
    requires !f.left && f.zero
    ensures |Render(NumberPieces(f, prefix, ds, false))| == |prefix| + Max(f.width, |ds|)
  {
    RenderAll(NumberPieces(f, prefix, ds, false));
  }

  /** "%05d" of -42: six bytes as written, five when the sign is counted. */
  lemma ZeroPadExample()
    ensures var f := Flags(false, false, false, false, true, 5, -1, 0);
      var sign: seq<byte> := ['-' as int];
      var ds: seq<byte> := ['4' as int, '2' as int];
      Render(NumberPieces(f, sign, ds, false)) == ['-' as int, '0' as int, '0' as int, '0' as int, '4' as int, '2' as int] &&
      Render(NumberPieces(f, sign, ds, true)) == ['-' as int, '0' as int, '0' as int, '4' as int, '2' as int]
  {
    var f := Flags(false, false, false, false, true, 5, -1, 0);
    var sign: seq<byte> := ['-' as int];
    var ds: seq<byte> := ['4' as int, '2' as int];
    RenderAll(NumberPieces(f, sign, ds, false));
    RenderAll(NumberPieces(f, sign, ds, true));
    assert Rep('0' as int, 3) == ['0' as int, '0' as int, '0' as int];
    assert Rep('0' as int, 2) == ['0' as int, '0' as int];
  }

  /** %s and "(nil)": the text, right-aligned in the width unless `-` left-aligns it. */
  lemma TextField(f: Flags, t: seq<byte>)
    ensures var r := Render(TextPieces(f, t));
      |r| == Max(f.width, |t|) &&
      (f.left ==> r[..|t|] == t) &&
      (!f.left ==> r[|r| - |t|..] == t)
  {
    var ps := TextPieces(f, t);
    RenderAll(ps);
    if f.left {
      assert Render(ps) == t + Whole(ps[2]);
    } else {
      assert Render(ps) == Whole(ps[0]) + t;
    }
  }

  /** The %s text is the string cut to the precision, or "(null)" for NULL. */
  lemma StringTextMeaning(s: Option<seq<byte>>, precision: int)
    ensures var t := StringText(s, precision);
      var whole := if s.None? then NullText else s.value;
      t <= whole && (precision >= 0 ==> |t| == Min(|whole|, precision)) && (precision < 0 ==> t == whole)
  {
  }
}
