/**
 * The VGA driver (kernel/arch/x86_64/vga.c): the 80x25 text console with
 * its cursor, wrapping and scrolling, and the linear framebuffer with its
 * pixel stores and straight lines.
 *
 * The file's statics are the fields of the class `Display`: `vga_buffer`
 * is the array `cells`, `vga_color`, `vga_row` and `vga_col` are `color`,
 * `row` and `col`; the framebuffer pointer is `present` (non-NULL) and the
 * memory behind it `memory`, a map from byte offsets so that a store at
 * any offset has a meaning. Writes to the CRT controller's ports are
 * logged in `ports`. Characters and colours are bytes (`bv8`), cells are
 * 16-bit VGA entries.
 */
module Vga {
  import opened Wrappers

  const U32: nat := 0x1_0000_0000
  const Width: int := 80
  const Height: int := 25
  const Size: int := 2000
  const LastRow: int := 24
  const Space: bv8 := 0x20
  const CrtcIndex: nat := 0x3D4
  const CrtcData: nat := 0x3D5

  // ---------------------------------------------------------------------
  // Cells and colours
  // ---------------------------------------------------------------------

  /** vga_entry_color: the foreground in the low nibble, the background above it. */
  function EntryColor(fg: bv8, bg: bv8): bv8
  {
    fg | (bg << 4)
  }

  /** For the sixteen VGA colours the attribute splits back into both. */
  lemma EntryColorSplit(fg: bv8, bg: bv8)
    requires fg < 16 && bg < 16
    ensures EntryColor(fg, bg) & 0x0F == fg && EntryColor(fg, bg) >> 4 == bg
  {
  }

  /** vga_entry: the character in the low byte, the attribute in the high byte. */
  function Entry(c: bv8, color: bv8): bv16
  {
    (c as bv16) | ((color as bv16) << 8)
  }

  /** An entry determines its character and its attribute. */
  lemma EntrySplit(c: bv8, color: bv8)
    ensures (Entry(c, color) & 0xFF) as bv8 == c
    ensures (Entry(c, color) >> 8) as bv8 == color
  {
  }

  /** A blank cell in the given colour. */
  function BlankCell(color: bv8): bv16
  {
    Entry(Space, color)
  }

  /** The text buffer after vga_clear_screen: 2000 blanks. */
  function BlankScreen(color: bv8): (r: seq<bv16>)
    ensures |r| == Size && forall i :: 0 <= i < Size ==> r[i] == BlankCell(color)
  {
    seq(Size, _ => BlankCell(color))
  }

  // ---------------------------------------------------------------------
  // The text console as a value
  // ---------------------------------------------------------------------

  datatype Text = Text(cells: seq<bv16>, color: bv8, row: int, col: int)

  /** The cursor is on the screen and the buffer has its 2000 cells. */
  ghost predicate Valid(t: Text)
  {
    |t.cells| == Size && 0 <= t.row < Height && 0 <= t.col < Width
  }

  /** The cell index of a screen position. */
  function Index(row: int, col: int): int
  {
    row * Width + col
  }

  /** vga_scroll: every row moves up by one, the last row is blank. */
  function Scrolled(cells: seq<bv16>, color: bv8): (r: seq<bv16>)
    requires |cells| == Size
    ensures |r| == Size
  {
    cells[Width..] + seq(Width, _ => BlankCell(color))
  }

  /** Row y after scrolling is row y+1 before it; row 24 is blank. */
  lemma ScrolledRows(cells: seq<bv16>, color: bv8)
    requires |cells| == Size
    ensures forall y, x :: 0 <= y < Height - 1 && 0 <= x < Width ==>
      Scrolled(cells, color)[Index(y, x)] == cells[Index(y + 1, x)]
    ensures forall x :: 0 <= x < Width ==> Scrolled(cells, color)[Index(LastRow, x)] == BlankCell(color)
  {
  }

  /** The cursor moves to the next row, scrolling at the bottom. */
  function NextRowOn(t: Text): (r: Text)
    requires |t.cells| == Size && 0 <= t.row < Height
    ensures Valid(r) || !(0 <= t.col < Width)
  {
    if t.row + 1 >= Height then t.(cells := Scrolled(t.cells, t.color), row := Height - 1)
    else t.(row := t.row + 1)
  }

  /** Whether vga_putchar treats `c` as a printable character. */
  predicate Printable(c: bv8)
  {
    c != 10 && c != 13 && c != 8
  }

  /** vga_putchar on the text state. */
  function PutCharOn(t: Text, c: bv8): (r: Text)
    requires Valid(t)
    ensures Valid(r) && r.color == t.color
  {
    if c == 10 then NextRowOn(t.(col := 0))
    else if c == 13 then t.(col := 0)
    else if c == 8 then
      if t.col > 0 then t.(col := t.col - 1, cells := t.cells[Index(t.row, t.col - 1) := BlankCell(t.color)])
      else t
    else
      var u := t.(cells := t.cells[Index(t.row, t.col) := Entry(c, t.color)], col := t.col + 1);
      if u.col >= Width then NextRowOn(u.(col := 0)) else u
  }

  /**
   * A printable character ends up in the cell just before the new cursor,
   * whether or not it wrapped the line or scrolled the screen. Without a
   * scroll no other cell changes; with one, the screen is the scrolled
   * screen that had the character in its last cell.
   */
  lemma PrintableBeforeCursor(t: Text, c: bv8)
    requires Valid(t) && Printable(c)
    ensures var r := PutCharOn(t, c);
      && Index(r.row, r.col) == (if Index(t.row, t.col) == Size - 1 then Size - Width else Index(t.row, t.col) + 1)
      && r.cells[Index(r.row, r.col) - 1] == Entry(c, t.color)
    ensures var r := PutCharOn(t, c);
      Index(t.row, t.col) < Size - 1 ==>
        forall i | 0 <= i < Size && i != Index(t.row, t.col) :: r.cells[i] == t.cells[i]
    ensures var r := PutCharOn(t, c);
      Index(t.row, t.col) == Size - 1 ==> r.cells == Scrolled(t.cells[Size - 1 := Entry(c, t.color)], t.color)
  {
  }

  /** '\n' goes to column 0 of the next row; on the last row it scrolls. */
  lemma NewlineMoves(t: Text)
    requires Valid(t)
    ensures var r := PutCharOn(t, 10);
      && r.col == 0
      && (t.row < Height - 1 ==> r.row == t.row + 1 && r.cells == t.cells)
      && (t.row == Height - 1 ==> r.row == Height - 1 && r.cells == Scrolled(t.cells, t.color))
  {
  }

  /** '\r' only resets the column; '\b' at column 0 does nothing. */
  lemma ReturnAndBackspace(t: Text)
    requires Valid(t)
    ensures PutCharOn(t, 13) == t.(col := 0)
    ensures t.col == 0 ==> PutCharOn(t, 8) == t
  {
  }

  /**
   * A printable character that does not end the line, followed by '\b',
   * leaves the cursor where it was and that cell blank.
   */
  lemma PrintThenBackspace(t: Text, c: bv8)
    requires Valid(t) && Printable(c) && t.col < Width - 1
    ensures PutCharOn(PutCharOn(t, c), 8) == t.(cells := t.cells[Index(t.row, t.col) := BlankCell(t.color)])
  {
  }

  // ---------------------------------------------------------------------
  // The hardware cursor
  // ---------------------------------------------------------------------

  datatype PortWrite = Out(port: nat, value: byte)

  /** The four port writes of vga_set_cursor: low byte (register 0x0F), then high byte (0x0E). */
  function CursorWrites(row: int, col: int): (r: seq<PortWrite>)
    requires 0 <= row < Height && 0 <= col < Width
    ensures |r| == 4
  {
    var pos := Index(row, col);
    [Out(CrtcIndex, 0x0F), Out(CrtcData, pos % 0x100), Out(CrtcIndex, 0x0E), Out(CrtcData, pos / 0x100 % 0x100)]
  }

  /** The two data bytes recombine to the cell index of the cursor. */
  lemma CursorBytes(row: int, col: int)
    requires 0 <= row < Height && 0 <= col < Width
    ensures var w := CursorWrites(row, col);
      w[3].value * 0x100 + w[1].value == Index(row, col)
  {
  }

  // ---------------------------------------------------------------------
  // The framebuffer as a value
  // ---------------------------------------------------------------------

  datatype Fb = Fb(graphics: bool, present: bool, width: nat, height: nat, pitch: nat, bpp: nat,
                   memory: map<nat, byte>)

  /** The bytes a pixel store of `color` writes, lowest address first (x86 is little-endian). */
  function PixelBytes(bpp: nat, color: nat): (r: seq<byte>)
    requires color < U32
    ensures |r| == (if bpp in {8, 16, 24, 32} then bpp / 8 else 0)
  {
    match bpp
    case 8 => [color % 0x100]
    case 16 => [color % 0x100, color / 0x100 % 0x100]
    case 24 => [color % 0x100, color / 0x100 % 0x100, color / 0x1_0000 % 0x100]
    case 32 => [color % 0x100, color / 0x100 % 0x100, color / 0x1_0000 % 0x100, color / 0x100_0000]
    case _ => []
  }

  /** The little-endian value of a byte string. */
  function LittleEndian(s: seq<byte>): nat
  {
    if s == [] then 0 else s[0] + 0x100 * LittleEndian(s[1..])
  }

  function Pow256(n: nat): (r: nat)
    ensures r > 0
  {
    if n == 0 then 1 else 0x100 * Pow256(n - 1)
  }

  lemma LittleEndianDigits(a: byte, b: byte, c: byte, d: byte)
    ensures LittleEndian([a]) == a
    ensures LittleEndian([a, b]) == a + 0x100 * b
    ensures LittleEndian([a, b, c]) == a + 0x100 * b + 0x1_0000 * c
    ensures LittleEndian([a, b, c, d]) == a + 0x100 * b + 0x1_0000 * c + 0x100_0000 * d
  {
    assert LittleEndian([a]) == a by { assert [a][1..] == []; }
    assert LittleEndian([b]) == b by { assert [b][1..] == []; }
    assert LittleEndian([c]) == c by { assert [c][1..] == []; }
    assert LittleEndian([d]) == d by { assert [d][1..] == []; }
    assert LittleEndian([c, d]) == c + 0x100 * d by { assert [c, d][1..] == [d]; }
    assert LittleEndian([b, c]) == b + 0x100 * c by { assert [b, c][1..] == [c]; }
    assert LittleEndian([a, b]) == a + 0x100 * b by { assert [a, b][1..] == [b]; }
    assert LittleEndian([b, c, d]) == b + 0x100 * c + 0x1_0000 * d by { assert [b, c, d][1..] == [c, d]; }
    assert LittleEndian([a, b, c]) == a + 0x100 * b + 0x1_0000 * c by { assert [a, b, c][1..] == [b, c]; }
    assert [a, b, c, d][1..] == [b, c, d];
  }

  /** Division and remainder by a power of 256 are fixed by any decomposition x == d * q + r with r < d. */
  lemma DivModUnique(x: nat, d: nat, q: nat, r: nat)
    requires d in {0x100, 0x1_0000, 0x100_0000} && r < d && x == d * q + r
    ensures x / d == q && x % d == r
  {
    if d == 0x100 {
      assert x == 0x100 * q + r;
    } else if d == 0x1_0000 {
      assert x == 0x1_0000 * q + r;
    } else {
      assert x == 0x100_0000 * q + r;
    }
  }

  /** The low one, two, three and four bytes of a 32-bit value. */
  lemma LowBytes(color: nat)
    requires color < U32
    ensures color % 0x100 + 0x100 * (color / 0x100 % 0x100) == color % 0x1_0000
    ensures color % 0x1_0000 + 0x1_0000 * (color / 0x1_0000 % 0x100) == color % 0x100_0000
    ensures color % 0x100_0000 + 0x100_0000 * (color / 0x100_0000) == color
  {
    var b0, q1 := color % 0x100, color / 0x100;
    var b1, q2 := q1 % 0x100, q1 / 0x100;
    var b2, q3 := q2 % 0x100, q2 / 0x100;
    DivModUnique(color, 0x100, q1, b0);
    DivModUnique(q1, 0x100, q2, b1);
    DivModUnique(q2, 0x100, q3, b2);
    DivModUnique(color, 0x1_0000, q2, b0 + 0x100 * b1);
    DivModUnique(color, 0x100_0000, q3, b0 + 0x100 * b1 + 0x1_0000 * b2);
  }

  /** Every pixel store keeps the low bpp bits of the colour, little-endian. */
  lemma PixelLittleEndian(bpp: nat, color: nat)
    requires color < U32 && bpp in {8, 16, 24, 32}
    ensures LittleEndian(PixelBytes(bpp, color)) == color % Pow256(bpp / 8)
  {
    LittleEndianDigits(color % 0x100, color / 0x100 % 0x100, color / 0x1_0000 % 0x100, color / 0x100_0000);
    LowBytes(color);
    assert Pow256(1) == 0x100 && Pow256(2) == 0x1_0000;
    assert Pow256(3) == 0x100_0000 && Pow256(4) == U32;
  }

  /** `bytes` stored from offset `at` on. */
  function Store(mem: map<nat, byte>, at: nat, bytes: seq<byte>): map<nat, byte>
    decreases |bytes|
  {
    if bytes == [] then mem else Store(mem[at := bytes[0]], at + 1, bytes[1..])
  }

  /** A store changes exactly the bytes it writes. */
  lemma {:induction false} StoreEffect(mem: map<nat, byte>, at: nat, bytes: seq<byte>)
    ensures forall a: nat :: at <= a < at + |bytes| ==> a in Store(mem, at, bytes) && Store(mem, at, bytes)[a] == bytes[a - at]
    ensures forall a: nat :: (a < at || a >= at + |bytes|) ==> (a in Store(mem, at, bytes) <==> a in mem)
    ensures forall a: nat :: (a < at || a >= at + |bytes|) && a in mem ==> Store(mem, at, bytes)[a] == mem[a]
    decreases |bytes|
  {
    if bytes != [] {
      var mem' := mem[at := bytes[0]];
      StoreEffect(mem', at + 1, bytes[1..]);
      assert Store(mem, at, bytes) == Store(mem', at + 1, bytes[1..]);
    }
  }

  /** The stores of one, two, three and four bytes spelled out. */
  lemma StoreBytes(m: map<nat, byte>, at: nat, a: byte, b: byte, c: byte, d: byte)
    ensures Store(m, at, [a]) == m[at := a]
    ensures Store(m, at, [a, b]) == m[at := a][at + 1 := b]
    ensures Store(m, at, [a, b, c]) == m[at := a][at + 1 := b][at + 2 := c]
    ensures Store(m, at, [a, b, c, d]) == m[at := a][at + 1 := b][at + 2 := c][at + 3 := d]
  {
    var m1 := m[at := a];
    var m2 := m1[at + 1 := b];
    var m3 := m2[at + 2 := c];
    var m4 := m3[at + 3 := d];
    assert Store(m1, at + 1, []) == m1;
    assert Store(m2, at + 2, []) == m2;
    assert Store(m3, at + 3, []) == m3;
    assert Store(m4, at + 4, []) == m4;
    assert Store(m, at, [a]) == Store(m1, at + 1, []) by { assert [a][1..] == []; }
    assert Store(m1, at + 1, [b]) == Store(m2, at + 2, []) by { assert [b][1..] == []; }
    assert Store(m2, at + 2, [c]) == Store(m3, at + 3, []) by { assert [c][1..] == []; }
    assert Store(m3, at + 3, [d]) == Store(m4, at + 4, []) by { assert [d][1..] == []; }
    assert Store(m2, at + 2, [c, d]) == Store(m3, at + 3, [d]) by { assert [c, d][1..] == [d]; }
    assert Store(m1, at + 1, [b, c]) == Store(m2, at + 2, [c]) by { assert [b, c][1..] == [c]; }
    assert Store(m1, at + 1, [b, c, d]) == Store(m2, at + 2, [c, d]) by { assert [b, c, d][1..] == [c, d]; }
    assert Store(m, at, [a, b]) == Store(m1, at + 1, [b]) by { assert [a, b][1..] == [b]; }
    assert Store(m, at, [a, b, c]) == Store(m1, at + 1, [b, c]) by { assert [a, b, c][1..] == [b, c]; }
    assert Store(m, at, [a, b, c, d]) == Store(m1, at + 1, [b, c, d]) by { assert [a, b, c, d][1..] == [b, c, d]; }
  }

  /** Where vga_set_pixel stores pixel (x, y): a 32-bit unsigned offset. */
  function PixelOffset(fb: Fb, x: nat, y: nat): nat
  {
    (y * fb.pitch + x * (fb.bpp / 8)) % U32
  }

  /** Whether vga_set_pixel stores anything for (x, y). */
  predicate Drawable(fb: Fb, x: nat, y: nat)
  {
    fb.graphics && fb.present && x < fb.width && y < fb.height
  }

  /** vga_set_pixel on the framebuffer memory. */
  function SetPixelOn(fb: Fb, x: nat, y: nat, color: nat): map<nat, byte>
    requires color < U32
  {
    if !Drawable(fb, x, y) then fb.memory
    else Store(fb.memory, PixelOffset(fb, x, y), PixelBytes(fb.bpp, color))
  }

  /**
   * vga_set_pixel ignores a pixel off the screen or outside graphics mode;
   * otherwise it changes exactly the bpp/8 bytes at the pixel's offset, and
   * those hold the colour.
   */
  lemma SetPixelEffect(fb: Fb, x: nat, y: nat, color: nat)
    requires color < U32
    ensures !Drawable(fb, x, y) ==> SetPixelOn(fb, x, y, color) == fb.memory
    ensures Drawable(fb, x, y) ==>
      var m := SetPixelOn(fb, x, y, color); var at := PixelOffset(fb, x, y); var b := PixelBytes(fb.bpp, color);
      && (forall a: nat :: at <= a < at + |b| ==> a in m && m[a] == b[a - at])
      && (forall a: nat :: (a < at || a >= at + |b|) ==> (a in m <==> a in fb.memory))
      && (forall a: nat :: (a < at || a >= at + |b|) && a in fb.memory ==> m[a] == fb.memory[a])
  {
    if Drawable(fb, x, y) {
      StoreEffect(fb.memory, PixelOffset(fb, x, y), PixelBytes(fb.bpp, color));
    }
  }

  /** vga_set_pixel for every x from `lo` to `hi` on row y, left to right. */
  function HLine(fb: Fb, lo: nat, hi: nat, y: nat, color: nat): map<nat, byte>
    requires color < U32
    decreases hi + 1 - lo
  {
    if lo > hi then fb.memory
    else HLine(fb.(memory := SetPixelOn(fb, lo, y, color)), lo + 1, hi, y, color)
  }

  /** vga_set_pixel for every y from `lo` to `hi` in column x, top to bottom. */
  function VLine(fb: Fb, x: nat, lo: nat, hi: nat, color: nat): map<nat, byte>
    requires color < U32
    decreases hi + 1 - lo
  {
    if lo > hi then fb.memory
    else VLine(fb.(memory := SetPixelOn(fb, x, lo, color)), x, lo + 1, hi, color)
  }

  /** A horizontal line on a row below the screen, or outside graphics mode, draws nothing. */
  lemma {:induction false} HLineOffScreen(fb: Fb, lo: nat, hi: nat, y: nat, color: nat)
    requires color < U32 && (!fb.graphics || !fb.present || y >= fb.height)
    ensures HLine(fb, lo, hi, y, color) == fb.memory
    decreases hi + 1 - lo
  {
    if lo <= hi {
      HLineOffScreen(fb.(memory := SetPixelOn(fb, lo, y, color)), lo + 1, hi, y, color);
    }
  }

  /** A horizontal line that starts right of the screen draws nothing. */
  lemma {:induction false} HLineRightOfScreen(fb: Fb, lo: nat, hi: nat, y: nat, color: nat)
    requires color < U32 && lo >= fb.width
    ensures HLine(fb, lo, hi, y, color) == fb.memory
    decreases hi + 1 - lo
  {
    if lo <= hi {
      HLineRightOfScreen(fb.(memory := SetPixelOn(fb, lo, y, color)), lo + 1, hi, y, color);
    }
  }

  /** A vertical line in a column right of the screen, or outside graphics mode, draws nothing. */
  lemma {:induction false} VLineOffScreen(fb: Fb, x: nat, lo: nat, hi: nat, color: nat)
    requires color < U32 && (!fb.graphics || !fb.present || x >= fb.width)
    ensures VLine(fb, x, lo, hi, color) == fb.memory
    decreases hi + 1 - lo
  {
    if lo <= hi {
      VLineOffScreen(fb.(memory := SetPixelOn(fb, x, lo, color)), x, lo + 1, hi, color);
    }
  }

  /**
   * The as-written loop variable of vga_draw_hline and vga_draw_vline: an
   * `unsigned int` incremented modulo 2^32.
   */
  function NextU32(x: nat): nat
  {
    (x + 1) % U32
  }

  /**
   * With the end point 0xFFFFFFFF the loop condition `x <= x2` holds for every
   * 32-bit x and for its successor, so the as-written loop never exits.
   */
  lemma LineEndWrapsAsWritten(x: nat)
    requires x < U32
    ensures x <= U32 - 1 && NextU32(x) <= U32 - 1
    ensures NextU32(U32 - 1) == 0
  {
  }

  /** The offsets below n. */
  function Below(n: nat): (r: set<nat>)
    ensures forall a: nat :: a in r <==> a < n
  {
    if n == 0 then {} else Below(n - 1) + {n - 1}
  }

  /** memset(framebuffer, 0, fb_height * fb_pitch) with the 32-bit product. */
  function Cleared(mem: map<nat, byte>, n: nat): (r: map<nat, byte>)
    ensures forall a: nat :: a < n ==> a in r && r[a] == 0
    ensures forall a: nat :: a >= n ==> (a in r <==> a in mem)
    ensures forall a: nat :: a >= n && a in mem ==> r[a] == mem[a]
  {
    map a | a in mem.Keys + Below(n) :: if a < n then 0 else mem[a]
  }

  /** The byte count of the framebuffer memset: fb_height * fb_pitch as a 32-bit product. */
  function FbBytes(fb: Fb): nat
  {
    fb.height * fb.pitch % U32
  }

  // ---------------------------------------------------------------------
  // The driver state
  // ---------------------------------------------------------------------

  class Display {
    /** vga_buffer: the 80x25 text cells. */
    var cells: array<bv16>
    /** vga_color, vga_row, vga_col. */
    var color: bv8
    var row: int
    var col: int
    /** The writes to the CRT controller's ports, oldest first. */
    var ports: seq<PortWrite>
    /** is_graphics_mode, framebuffer != NULL, fb_width, fb_height, fb_pitch, fb_bpp. */
    var graphics: bool
    var present: bool
    var width: nat
    var height: nat
    var pitch: nat
    var bpp: nat
    /** The bytes behind `framebuffer`, by offset. */
    var memory: map<nat, byte>

    ghost predicate Valid()
      reads this
    {
      cells.Length == Size && 0 <= row < Height && 0 <= col < Width
    }

    function TextState(): Text
      reads this, cells
    {
      Text(cells[..], color, row, col)
    }

    function FbState(): Fb
      reads this
    {
      Fb(graphics, present, width, height, pitch, bpp, memory)
    }

    /** vga_set_color. */
    method SetColor(fg: bv8, bg: bv8)
      modifies this
      ensures color == EntryColor(fg, bg)
      ensures cells == old(cells) && row == old(row) && col == old(col) && ports == old(ports)
      ensures FbState() == old(FbState())
    {
      color := EntryColor(fg, bg);
    }

    /** vga_set_cursor: a position off the screen is ignored. */
    method SetCursor(r: int, c: int)
      modifies this
      ensures if 0 <= r < Height && 0 <= c < Width
        then row == r && col == c && ports == old(ports) + CursorWrites(r, c)
        else row == old(row) && col == old(col) && ports == old(ports)
      ensures cells == old(cells) && color == old(color) && FbState() == old(FbState())
    {
      if r >= Height || c >= Width || r < 0 || c < 0 {
        return;
      }
      row, col := r, c;
      var pos := r * Width + c;
      ports := ports + [Out(CrtcIndex, 0x0F), Out(CrtcData, pos % 0x100)];
      ports := ports + [Out(CrtcIndex, 0x0E), Out(CrtcData, pos / 0x100 % 0x100)];
    }

    /** vga_scroll, row by row and cell by cell as the C does it. */
    method Scroll()
      requires cells.Length == Size
      modifies cells
      ensures cells[..] == Scrolled(old(cells[..]), color)
    {
      ghost var before := cells[..];
      var y := 0;
      while y < Height - 1
        invariant 0 <= y <= Height - 1
        invariant forall i :: 0 <= i < y * Width ==> cells[i] == before[i + Width]
        invariant forall i :: y * Width <= i < Size ==> cells[i] == before[i]
      {
        var x := 0;
        while x < Width
          invariant 0 <= x <= Width
          invariant forall i :: 0 <= i < y * Width + x ==> cells[i] == before[i + Width]
          invariant forall i :: y * Width + x <= i < Size ==> cells[i] == before[i]
        {
          cells[y * Width + x] := cells[(y + 1) * Width + x];
          x := x + 1;
        }
        y := y + 1;
      }
      var x := 0;
      while x < Width
        invariant 0 <= x <= Width
        invariant forall i :: 0 <= i < Size - Width ==> cells[i] == before[i + Width]
        invariant forall i :: Size - Width <= i < Size - Width + x ==> cells[i] == BlankCell(color)
      {
        cells[(Height - 1) * Width + x] := Entry(Space, color);
        x := x + 1;
      }
      assert cells[..] == Scrolled(before, color);
    }

    /** vga_putchar. */
    method PutChar(c: bv8)
      requires Valid()
      modifies this, cells
      ensures Valid() && cells == old(cells)
      ensures TextState() == PutCharOn(old(TextState()), c)
      ensures ports == old(ports) + (if Printable(c) then CursorWrites(row, col) else [])
      ensures FbState() == old(FbState())
    {
      if c == 10 {
        col := 0;
        NextRow();
        return;
      }
      if c == 13 {
        col := 0;
        return;
      }
      if c == 8 {
        if col > 0 {
          col := col - 1;
          cells[row * Width + col] := Entry(Space, color);
        }
        return;
      }
      Print(c);
    }

    /** The printable case of vga_putchar: store, advance, wrap, move the hardware cursor. */
    method Print(c: bv8)
      requires Valid() && Printable(c)
      modifies this, cells
      ensures Valid() && cells == old(cells)
      ensures TextState() == PutCharOn(old(TextState()), c)
      ensures ports == old(ports) + CursorWrites(row, col)
      ensures FbState() == old(FbState())
    {
      cells[row * Width + col] := Entry(c, color);
      col := col + 1;
      if col >= Width {
        col := 0;
        NextRow();
      }
      SetCursor(row, col);
    }

    /** `vga_row++`, scrolling at the bottom of the screen (the column is set by the caller). */
    method NextRow()
      requires cells.Length == Size && 0 <= row < Height && 0 <= col < Width
      modifies this, cells
      ensures Valid() && cells == old(cells) && col == old(col)
      ensures TextState() == NextRowOn(old(TextState()))
      ensures ports == old(ports) && FbState() == old(FbState())
    {
      row := row + 1;
      if row >= Height {
        Scroll();
        row := Height - 1;
      }
    }

    /** vga_clear_screen: the framebuffer in graphics mode, else the text cells; then the cursor. */
    method ClearScreen()
      requires cells.Length == Size
      modifies this, cells
      ensures row == 0 && col == 0 && Valid() && cells == old(cells)
      ensures graphics ==> cells[..] == old(cells[..]) && memory == (if present then Cleared(old(memory), FbBytes(old(FbState()))) else old(memory))
      ensures !graphics ==> cells[..] == BlankScreen(color) && memory == old(memory)
      ensures color == old(color) && ports == old(ports)
      ensures graphics == old(graphics) && present == old(present) && width == old(width)
      ensures height == old(height) && pitch == old(pitch) && bpp == old(bpp)
    {
      if graphics {
        if present {
          memory := Cleared(memory, FbBytes(FbState()));
        }
      } else {
        var i := 0;
        while i < Size
          modifies cells
          invariant 0 <= i <= Size
          invariant forall k :: 0 <= k < i ==> cells[k] == BlankCell(color)
        {
          cells[i] := Entry(Space, color);
          i := i + 1;
        }
      }
      row := 0;
      col := 0;
    }

    /** vga_set_pixel. */
    method SetPixel(x: nat, y: nat, c: nat)
      requires x < U32 && y < U32 && c < U32
      modifies this
      ensures memory == SetPixelOn(old(FbState()), x, y, c)
      ensures graphics == old(graphics) && present == old(present) && width == old(width)
      ensures height == old(height) && pitch == old(pitch) && bpp == old(bpp)
      ensures cells == old(cells) && color == old(color) && row == old(row) && col == old(col) && ports == old(ports)
    {
      if !graphics || !present || x >= width || y >= height {
        return;
      }
      var at := (y * pitch + x * (bpp / 8)) % U32;
      StoreBytes(memory, at, c % 0x100, c / 0x100 % 0x100, c / 0x1_0000 % 0x100, c / 0x100_0000);
      if bpp == 8 {
        memory := memory[at := c % 0x100];
      } else if bpp == 16 {
        memory := memory[at := c % 0x100][at + 1 := c / 0x100 % 0x100];
      } else if bpp == 24 {
        memory := memory[at := c % 0x100][at + 1 := c / 0x100 % 0x100][at + 2 := c / 0x1_0000 % 0x100];
      } else if bpp == 32 {
        memory := memory[at := c % 0x100][at + 1 := c / 0x100 % 0x100][at + 2 := c / 0x1_0000 % 0x100]
                        [at + 3 := c / 0x100_0000];
      }
    }

    /**
     * vga_draw_hline: reversed end points are swapped, then every x from
     * the smaller to the larger is drawn. The loop counts in unbounded
     * integers (see LineEndWrapsAsWritten for the C's 32-bit counter).
     */
    method DrawHLine(x1: nat, y: nat, x2: nat, c: nat)
      requires x1 < U32 && y < U32 && x2 < U32 && c < U32
      modifies this
      ensures memory == HLine(old(FbState()), if x1 <= x2 then x1 else x2, if x1 <= x2 then x2 else x1, y, c)
      ensures graphics == old(graphics) && present == old(present) && width == old(width)
      ensures height == old(height) && pitch == old(pitch) && bpp == old(bpp)
      ensures cells == old(cells) && color == old(color) && row == old(row) && col == old(col) && ports == old(ports)
    {
      var lo, hi := x1, x2;
      if lo > hi {
        lo, hi := hi, lo;
      }
      var x := lo;
      while x <= hi
        invariant lo <= x <= hi + 1
        invariant HLine(FbState(), x, hi, y, c) == HLine(old(FbState()), lo, hi, y, c)
        invariant graphics == old(graphics) && present == old(present) && width == old(width)
        invariant height == old(height) && pitch == old(pitch) && bpp == old(bpp)
        invariant cells == old(cells) && color == old(color) && row == old(row) && col == old(col) && ports == old(ports)
        decreases hi + 1 - x
      {
        SetPixel(x, y, c);
        x := x + 1;
      }
    }

    /** vga_draw_vline: as DrawHLine, down a column. */
    method DrawVLine(x: nat, y1: nat, y2: nat, c: nat)
      requires x < U32 && y1 < U32 && y2 < U32 && c < U32
      modifies this
      ensures memory == VLine(old(FbState()), x, if y1 <= y2 then y1 else y2, if y1 <= y2 then y2 else y1, c)
      ensures graphics == old(graphics) && present == old(present) && width == old(width)
      ensures height == old(height) && pitch == old(pitch) && bpp == old(bpp)
      ensures cells == old(cells) && color == old(color) && row == old(row) && col == old(col) && ports == old(ports)
    {
      var lo, hi := y1, y2;
      if lo > hi {
        lo, hi := hi, lo;
      }
      var y := lo;
      while y <= hi
        invariant lo <= y <= hi + 1
        invariant VLine(FbState(), x, y, hi, c) == VLine(old(FbState()), x, lo, hi, c)
        invariant graphics == old(graphics) && present == old(present) && width == old(width)
        invariant height == old(height) && pitch == old(pitch) && bpp == old(bpp)
        invariant cells == old(cells) && color == old(color) && row == old(row) && col == old(col) && ports == old(ports)
        decreases hi + 1 - y
      {
        SetPixel(x, y, c);
        y := y + 1;
      }
    }
  }
}
