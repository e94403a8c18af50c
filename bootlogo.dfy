/**
 * The boot logo (kernel/boot/boot_logo.c): a PNG chunk walker that accepts
 * only raw 8-bit RGBA images (PNG specification, ISO/IEC 15948, sections
 * 5.2, 5.3 and 11.2.2), the big-endian reads it relies on, the centring
 * copy into the framebuffer and the integer alpha blend.
 *
 * The file's statics `logo_data`, `logo_width` and `logo_height` are the
 * fields of the class `Logo`. The logo buffer from kmalloc is a `Buffer`:
 * its size and the prefix of it that IDAT copies have written (kmalloc
 * does not clear memory, so the rest is unknown). Whether kmalloc can
 * satisfy the request is the parameter `room`; kmalloc(0) is NULL.
 */
module BootLogo {
  import opened Wrappers

  const U32: nat := 0x1_0000_0000
  const MaxWidth: nat := 640
  const MaxHeight: nat := 480
  const HeaderSize: nat := 8
  /** "\x89PNG\r\n\x1a\n", section 5.2 of the PNG specification. */
  const Signature: seq<byte> := [0x89, 0x50, 0x4E, 0x47, 0x0D, 0x0A, 0x1A, 0x0A]
  const IHDR: nat := 0x4948_4452
  const IDAT: nat := 0x4944_4154
  const IEND: nat := 0x4945_4E44
  const ColorRGBA: byte := 6

  // ---------------------------------------------------------------------
  // Byte order
  // ---------------------------------------------------------------------

  /** swap32: the four bytes of `v` in the opposite order. */
  function Swap32(v: bv32): bv32
  {
    ((v & 0xFF) << 24) | ((v & 0xFF00) << 8) | ((v & 0xFF_0000) >> 8) | ((v & 0xFF00_0000) >> 24)
  }

  /** Byte k of swap32(v) (k = 0 the least significant) is byte 3-k of v. */
  lemma SwapReverses(v: bv32)
    ensures Swap32(v) & 0xFF == (v >> 24) & 0xFF
    ensures (Swap32(v) >> 8) & 0xFF == (v >> 16) & 0xFF
    ensures (Swap32(v) >> 16) & 0xFF == (v >> 8) & 0xFF
    ensures (Swap32(v) >> 24) & 0xFF == v & 0xFF
  {
  }

  /** swap32 is an involution. */
  lemma SwapInvolution(v: bv32)
    ensures Swap32(Swap32(v)) == v
  {
  }

  /**
   * read_uint32: the four bytes from `i` on as a big-endian number
   * (section 7.1 of the PNG specification). The C shifts the first byte
   * into the sign bit of an int; the model takes the unsigned value the
   * result is stored as.
   */
  function ReadU32(s: seq<byte>, i: nat): (r: nat)
    requires i + 4 <= |s|
    ensures r < U32
  {
    s[i] as nat * 0x100_0000 + s[i + 1] as nat * 0x1_0000 + s[i + 2] as nat * 0x100 + s[i + 3] as nat
  }

  /** The big-endian encoding of a 32-bit value, the inverse of ReadU32. */
  function BigEndian(x: nat): (r: seq<byte>)
    requires x < U32
    ensures |r| == 4
  {
    [x / 0x100_0000, x / 0x1_0000 % 0x100, x / 0x100 % 0x100, x % 0x100]
  }

  lemma ReadBigEndian(x: nat)
    requires x < U32
    ensures ReadU32(BigEndian(x), 0) == x
  {
    var q2 := x / 0x100;
    var q3 := x / 0x1_0000;
    assert x == q2 * 0x100 + x % 0x100;
    assert q2 == q3 * 0x100 + q2 % 0x100;
    assert q3 == x / 0x100_0000 * 0x100 + q3 % 0x100;
    assert x / 0x1_0000 % 0x100 == q3 % 0x100 && x / 0x100 % 0x100 == q2 % 0x100;
  }

  lemma BigEndianRead(s: seq<byte>, i: nat)
    requires i + 4 <= |s|
    ensures BigEndian(ReadU32(s, i)) == s[i..i + 4]
  {
    var x := ReadU32(s, i);
    assert x / 0x100_0000 == s[i];
    assert x / 0x1_0000 == s[i] as nat * 0x100 + s[i + 1];
    assert x / 0x100 == s[i] as nat * 0x1_0000 + s[i + 1] as nat * 0x100 + s[i + 2];
  }

  // ---------------------------------------------------------------------
  // The decoder's state
  // ---------------------------------------------------------------------

  /** width*height*4, the size of the RGBA pixel buffer. */
  function ImageBytes(w: nat, h: nat): nat
  {
    Mul(w, h) * 4
  }

  /** The kmalloc'ed logo buffer: its size and the bytes written so far. */
  datatype Buffer = Buffer(capacity: nat, known: seq<byte>)

  /** logo_data (None is NULL), logo_width and logo_height. */
  datatype Image = Image(data: Option<Buffer>, width: nat, height: nat)

  /** What a successful IHDR leaves behind: a buffer of width*height*4 bytes. */
  ghost predicate Loaded(img: Image)
  {
    && img.data.Some?
    && 0 < img.width <= MaxWidth && 0 < img.height <= MaxHeight
    && img.data.value.capacity == ImageBytes(img.width, img.height)
    && |img.data.value.known| <= img.data.value.capacity
  }

  /** memcpy(logo_data, src, |src|): the first |src| bytes become src. */
  function CopyInto(b: Buffer, src: seq<byte>): (r: Buffer)
    ensures r.capacity == b.capacity
    ensures |r.known| == if |src| < |b.known| then |b.known| else |src|
    ensures r.known[..|src|] == src
    ensures forall k | |src| <= k < |b.known| :: r.known[k] == b.known[k]
  {
    Buffer(b.capacity, src + (if |src| < |b.known| then b.known[|src|..] else []))
  }

  // ---------------------------------------------------------------------
  // One chunk
  // ---------------------------------------------------------------------

  /**
   * How a chunk ends the walk. `Overrun` marks a memory access outside a
   * buffer: the read or write of the C code goes past its end.
   */
  datatype Next = Stop(ok: bool) | Continue(offset: nat, hasIhdr: bool) | Overrun

  function ChunkLength(input: seq<byte>, offset: nat): nat
    requires offset + 12 <= |input|
  {
    ReadU32(input, offset)
  }

  function ChunkType(input: seq<byte>, offset: nat): nat
    requires offset + 12 <= |input|
  {
    ReadU32(input, offset + 4)
  }

  /** The IHDR fields the decoder accepts (section 11.2.2). */
  predicate HeaderSupported(input: seq<byte>, offset: nat)
    requires offset + 21 <= |input|
  {
    && input[offset + 17] == ColorRGBA && input[offset + 16] == 8
    && input[offset + 18] == 0 && input[offset + 19] == 0 && input[offset + 20] == 0
  }

  /**
   * One turn of the chunk loop of decode_png at `offset`. With `strict`
   * false this is the code as written: the offsets are uint32 sums that
   * wrap, and the IDAT copy is not checked against the buffer. With
   * `strict` they are exact and an IDAT longer than the buffer is
   * rejected.
   */
  function ChunkStep(input: seq<byte>, offset: nat, hasIhdr: bool, img: Image, room: bool, strict: bool): (r: (Next, Image))
    requires offset + 12 <= |input| < U32
    ensures strict && r.0.Continue? ==> offset < r.0.offset <= |input|
    ensures strict ==> !r.0.Overrun?
  {
    var len := ChunkLength(input, offset);
    var kind := ChunkType(input, offset);
    var total := offset + 12 + len;
    var next := if strict then total else total % U32;
    if next > |input| then (Stop(false), img)
    else if kind == IHDR then
      if len != 13 then (Stop(false), img)
      else if total > |input| then (Overrun, img)
      else if !HeaderSupported(input, offset) then (Stop(false), img)
      else
        var w := ReadU32(input, offset + 8);
        var h := ReadU32(input, offset + 12);
        if w > MaxWidth || h > MaxHeight then (Stop(false), img)
        else if ImageBytes(w, h) == 0 || !room then (Stop(false), img.(data := None))
        else (Continue(next, true), Image(Some(Buffer(ImageBytes(w, h), [])), w, h))
    else if kind == IDAT then
      if !hasIhdr || img.data.None? then (Stop(false), img)
      else if total > |input| || len > img.data.value.capacity then
        (if strict then Stop(false) else Overrun, img)
      else (Continue(next, hasIhdr), img.(data := Some(CopyInto(img.data.value, input[offset + 8..offset + 8 + len]))))
    else if kind == IEND then (Stop(hasIhdr && img.data.Some?), img)
    else (Continue(next, hasIhdr), img)
  }

  // ---------------------------------------------------------------------
  // The walk (exact offsets, IDAT bounded)
  // ---------------------------------------------------------------------

  /** A chunk at `o` whose type is IEND. */
  predicate IsIend(input: seq<byte>, o: nat)
  {
    o + 12 <= |input| && ReadU32(input, o + 4) == IEND
  }

  /** The loop of decode_png from `offset` on. */
  function Walk(input: seq<byte>, offset: nat, hasIhdr: bool, img: Image, room: bool): (r: (bool, Image))
    requires |input| < U32
    decreases |input| - offset
  {
    if offset + 12 > |input| then (false, img)
    else
      var (next, img') := ChunkStep(input, offset, hasIhdr, img, room, true);
      match next
      case Stop(ok) => (ok, img')
      case Continue(o, h) => Walk(input, o, h, img', room)
  }

  /** decode_png: the signature, then the chunks from byte 8 on. */
  function Decode(input: seq<byte>, img: Image, room: bool): (bool, Image)
    requires |input| < U32
  {
    if |input| < HeaderSize || input[..HeaderSize] != Signature then (false, img)
    else Walk(input, HeaderSize, false, img, room)
  }

  /**
   * The walk succeeds only by reaching an IEND chunk, and only after an
   * IHDR that passed every check, so that the logo buffer is there, has
   * width*height*4 bytes and the IDAT copies fit in it.
   */
  lemma {:induction false} WalkLoaded(input: seq<byte>, offset: nat, hasIhdr: bool, img: Image, room: bool)
    requires |input| < U32
    requires hasIhdr ==> Loaded(img)
    ensures var r := Walk(input, offset, hasIhdr, img, room);
      r.0 ==> Loaded(r.1) && exists o :: offset <= o && IsIend(input, o)
    decreases |input| - offset
  {
    if offset + 12 <= |input| {
      var (next, img') := ChunkStep(input, offset, hasIhdr, img, room, true);
      if next.Continue? {
        ChunkLoaded(input, offset, hasIhdr, img, room);
        WalkLoaded(input, next.offset, next.hasIhdr, img', room);
      } else if next == Stop(true) {
        assert IsIend(input, offset);
      }
    }
  }

  /** One chunk keeps "after an IHDR, the buffer is loaded". */
  lemma ChunkLoaded(input: seq<byte>, offset: nat, hasIhdr: bool, img: Image, room: bool)
    requires offset + 12 <= |input| < U32
    requires hasIhdr ==> Loaded(img)
    ensures var (next, img') := ChunkStep(input, offset, hasIhdr, img, room, true);
      (next.Continue? && next.hasIhdr ==> Loaded(img')) && (next == Stop(true) ==> Loaded(img'))
  {
    var len := ChunkLength(input, offset);
    var (next, img') := ChunkStep(input, offset, hasIhdr, img, room, true);
    if next.Continue? && ChunkType(input, offset) == IHDR {
      var w := ReadU32(input, offset + 8);
      var h := ReadU32(input, offset + 12);
      assert img' == Image(Some(Buffer(ImageBytes(w, h), [])), w, h);
      if h == 0 {
        MulZero(w);
      }
    } else if next.Continue? && ChunkType(input, offset) == IDAT {
      assert img' == img.(data := Some(CopyInto(img.data.value, input[offset + 8..offset + 8 + len])));
    }
  }

  /** A successful decode leaves a loaded logo behind and has seen IEND. */
  lemma DecodeLoaded(input: seq<byte>, img: Image, room: bool)
    requires |input| < U32
    ensures var r := Decode(input, img, room);
      r.0 ==> && input[..HeaderSize] == Signature && Loaded(r.1)
              && exists o :: HeaderSize <= o && IsIend(input, o)
  {
    if |input| >= HeaderSize && input[..HeaderSize] == Signature {
      WalkLoaded(input, HeaderSize, false, img, room);
    }
  }

  /** IDAT or IEND before any IHDR: the decode fails. */
  lemma DataBeforeHeader(input: seq<byte>, img: Image, room: bool)
    requires HeaderSize + 12 <= |input| < U32
    requires ChunkType(input, HeaderSize) == IDAT || ChunkType(input, HeaderSize) == IEND
    ensures !Decode(input, img, room).0
  {
  }

  /** The walk from `offset` reads nothing before `offset`. */
  lemma {:induction false} WalkSuffix(a: seq<byte>, b: seq<byte>, offset: nat, hasIhdr: bool, img: Image, room: bool)
    requires |a| == |b| < U32 && offset <= |a| && a[offset..] == b[offset..]
    ensures Walk(a, offset, hasIhdr, img, room) == Walk(b, offset, hasIhdr, img, room)
    decreases |a| - offset
  {
    if offset + 12 <= |a| {
      ChunkAgrees(a, b, offset, hasIhdr, img, room);
      var (next, img') := ChunkStep(a, offset, hasIhdr, img, room, true);
      if next.Continue? {
        assert a[next.offset..] == a[offset..][next.offset - offset..];
        assert b[next.offset..] == b[offset..][next.offset - offset..];
        WalkSuffix(a, b, next.offset, next.hasIhdr, img', room);
      }
    }
  }

  /**
   * A chunk's step reads only its length, type and data: it is the same
   * on two inputs that agree on those bytes, whatever follows them.
   */
  lemma ChunkAgrees(a: seq<byte>, b: seq<byte>, offset: nat, hasIhdr: bool, img: Image, room: bool)
    requires offset + 12 <= |a| == |b| < U32
    requires ChunkLength(a, offset) == ChunkLength(b, offset)
    requires var end := offset + 8 + ChunkLength(a, offset);
      end <= |a| ==> a[offset..end] == b[offset..end]
    requires offset + 8 + ChunkLength(a, offset) > |a| ==> a[offset..offset + 8] == b[offset..offset + 8]
    ensures ChunkStep(a, offset, hasIhdr, img, room, true) == ChunkStep(b, offset, hasIhdr, img, room, true)
  {
    var len := ChunkLength(a, offset);
    var n := if offset + 8 + len <= |a| then 8 + len else 8;
    assert forall k | offset <= k < offset + n :: a[k] == a[offset..offset + n][k - offset];
    assert forall k | offset <= k < offset + n :: b[k] == b[offset..offset + n][k - offset];
    assert ChunkType(a, offset) == ChunkType(b, offset);
    if offset + 8 + len <= |a| {
      assert a[offset + 8..offset + 8 + len] == a[offset..offset + 8 + len][8..];
      assert b[offset + 8..offset + 8 + len] == b[offset..offset + 8 + len][8..];
    }
  }

  /**
   * The CRC is never checked: replacing the four CRC bytes of the first
   * chunk by anything does not change the outcome.
   */
  lemma CrcIgnored(input: seq<byte>, crc: seq<byte>, img: Image, room: bool)
    requires |input| < U32 && |crc| == 4
    requires HeaderSize + 12 <= |input|
    requires HeaderSize + 12 + ChunkLength(input, HeaderSize) <= |input|
    ensures var k := HeaderSize + 8 + ChunkLength(input, HeaderSize);
      Decode(input[..k] + crc + input[k + 4..], img, room) == Decode(input, img, room)
  {
    var k := HeaderSize + 8 + ChunkLength(input, HeaderSize);
    var other := input[..k] + crc + input[k + 4..];
    assert |other| == |input|;
    assert other[..k] == input[..k];
    assert other[k + 4..] == input[k + 4..];
    assert other[..HeaderSize] == input[..k][..HeaderSize];
    assert input[..HeaderSize] == input[..k][..HeaderSize];
    if input[..HeaderSize] == Signature {
      assert ReadU32(other, HeaderSize) == ReadU32(input, HeaderSize) by {
        assert forall j | HeaderSize <= j < HeaderSize + 4 :: other[j] == input[..k][j] == input[j];
      }
      assert other[HeaderSize..k] == input[HeaderSize..k] by {
        assert other[HeaderSize..k] == other[..k][HeaderSize..];
        assert input[HeaderSize..k] == input[..k][HeaderSize..];
      }
      ChunkAgrees(input, other, HeaderSize, false, img, room);
      var (next, img') := ChunkStep(input, HeaderSize, false, img, room, true);
      if next.Continue? {
        assert next.offset == k + 4;
        WalkSuffix(input, other, k + 4, next.hasIhdr, img', room);
      }
    }
  }

  /** The smallest image the decoder accepts: 1x1 RGBA, no IDAT. */
  const OnePixel: seq<byte> := Signature
    + [0, 0, 0, 13] + [0x49, 0x48, 0x44, 0x52] + [0, 0, 0, 1, 0, 0, 0, 1, 8, 6, 0, 0, 0] + [0, 0, 0, 0]
    + [0, 0, 0, 0] + [0x49, 0x45, 0x4E, 0x44] + [0, 0, 0, 0]

  lemma OnePixelAccepted(img: Image)
    ensures Decode(OnePixel, img, true) == (true, Image(Some(Buffer(4, [])), 1, 1))
    ensures Decode(OnePixel, img, false) == (false, img.(data := None))
  {
    assert OnePixel[..HeaderSize] == Signature;
    assert ChunkLength(OnePixel, 8) == 13 && ChunkType(OnePixel, 8) == IHDR;
    assert ReadU32(OnePixel, 16) == 1 && ReadU32(OnePixel, 20) == 1;
    assert HeaderSupported(OnePixel, 8);
    assert ChunkLength(OnePixel, 33) == 0 && ChunkType(OnePixel, 33) == IEND;
    var loaded := Image(Some(Buffer(4, [])), 1, 1);
    assert ChunkStep(OnePixel, 8, false, img, true, true) == (Continue(33, true), loaded);
    assert Walk(OnePixel, 33, true, loaded, true) == (true, loaded);
    assert ChunkStep(OnePixel, 8, false, img, false, true) == (Stop(false), img.(data := None));
  }

  /** The same image with one IDAT chunk carrying its four pixel bytes. */
  const OnePixelData: seq<byte> := Signature
    + [0, 0, 0, 13] + [0x49, 0x48, 0x44, 0x52] + [0, 0, 0, 1, 0, 0, 0, 1, 8, 6, 0, 0, 0] + [0, 0, 0, 0]
    + [0, 0, 0, 4] + [0x49, 0x44, 0x41, 0x54] + [0x11, 0x22, 0x33, 0x44] + [0, 0, 0, 0]
    + [0, 0, 0, 0] + [0x49, 0x45, 0x4E, 0x44] + [0, 0, 0, 0]

  /** The IDAT bytes of `OnePixelData` are copied whole into the pixel buffer. */
  lemma OnePixelDataCopied(img: Image)
    ensures Decode(OnePixelData, img, true) == (true, Image(Some(Buffer(4, [0x11, 0x22, 0x33, 0x44])), 1, 1))
  {
    var input := OnePixelData;
    assert input[..HeaderSize] == Signature;
    var loaded := Image(Some(Buffer(4, [])), 1, 1);
    var filled := Image(Some(Buffer(4, [0x11, 0x22, 0x33, 0x44])), 1, 1);
    OnePixelHeader(img);
    OnePixelIdat();
    assert ChunkLength(input, 49) == 0 && ChunkType(input, 49) == IEND;
    assert Walk(input, 49, true, filled, true) == (true, filled);
    assert Walk(input, 33, true, loaded, true) == (true, filled);
  }

  /** The IHDR step of `OnePixelDataCopied`. */
  lemma OnePixelHeader(img: Image)
    ensures ChunkStep(OnePixelData, 8, false, img, true, true) == (Continue(33, true), Image(Some(Buffer(4, [])), 1, 1))
  {
    var input := OnePixelData;
    assert ChunkLength(input, 8) == 13 && ChunkType(input, 8) == IHDR;
    assert ReadU32(input, 16) == 1 && ReadU32(input, 20) == 1;
    assert HeaderSupported(input, 8);
  }

  /** The IDAT step of `OnePixelDataCopied`. */
  lemma OnePixelIdat()
    ensures ChunkStep(OnePixelData, 33, true, Image(Some(Buffer(4, [])), 1, 1), true, true)
         == (Continue(49, true), Image(Some(Buffer(4, [0x11, 0x22, 0x33, 0x44])), 1, 1))
  {
    var input := OnePixelData;
    assert ChunkLength(input, 33) == 4 && ChunkType(input, 33) == IDAT;
    assert input[41..45] == [0x11, 0x22, 0x33, 0x44];
    assert CopyInto(Buffer(4, []), input[41..45]) == Buffer(4, [0x11, 0x22, 0x33, 0x44]);
  }

  // ---------------------------------------------------------------------
  // As written: the defects of the chunk loop
  // ---------------------------------------------------------------------

  /**
   * A chunk length of 0xFFFFFFF4 at offset 8: offset+12+length wraps to 8,
   * passes the truncation check, and the loop moves back to offset 8, where
   * it finds the same chunk again; decode_png never returns.
   */
  const Spinning: seq<byte> := Signature + [0xFF, 0xFF, 0xFF, 0xF4] + [0x74, 0x45, 0x58, 0x74] + [0, 0, 0, 0]

  lemma SpinAsWritten(img: Image, room: bool)
    ensures ChunkStep(Spinning, HeaderSize, false, img, room, false) == (Continue(HeaderSize, false), img)
    ensures Decode(Spinning, img, room) == (false, img)
  {
    assert ChunkLength(Spinning, 8) == 0xFFFF_FFF4;
  }

  /**
   * After an IHDR for a 1x1 image (a 4-byte buffer), an IDAT of 8 bytes is
   * copied whole: the as-written step writes past the buffer, where the
   * strict one rejects the chunk.
   */
  const LongData: seq<byte> := Signature + [0, 0, 0, 8] + [0x49, 0x44, 0x41, 0x54] + [1, 2, 3, 4, 5, 6, 7, 8] + [0, 0, 0, 0]

  lemma IdatOverrunAsWritten(room: bool)
    ensures var img := Image(Some(Buffer(4, [])), 1, 1);
      && ChunkStep(LongData, HeaderSize, true, img, room, false).0 == Overrun
      && ChunkStep(LongData, HeaderSize, true, img, room, true).0 == Stop(false)
  {
    assert ChunkLength(LongData, 8) == 8;
    assert ChunkType(LongData, 8) == IDAT;
  }

  // ---------------------------------------------------------------------
  // decode_png
  // ---------------------------------------------------------------------

  class Logo {
    var data: Option<Buffer>
    var width: nat
    var height: nat

    function State(): Image
      reads this
    {
      Image(data, width, height)
    }

    constructor ()
      ensures State() == Image(None, 0, 0)
    {
      data, width, height := None, 0, 0;
    }

    /**
     * decode_png over the whole input, with the offsets exact and an IDAT
     * longer than the buffer rejected.
     */
    method DecodePng(input: seq<byte>, room: bool) returns (ok: bool)
      requires |input| < U32
      modifies this
      ensures (ok, State()) == Decode(input, old(State()), room)
    {
      if |input| < HeaderSize || input[..HeaderSize] != Signature {
        return false;
      }
      var offset := HeaderSize;
      var hasIhdr := false;
      while offset + 12 <= |input|
        invariant offset <= |input|
        invariant Walk(input, offset, hasIhdr, State(), room) == Walk(input, HeaderSize, false, old(State()), room)
        decreases |input| - offset
      {
        var len := ReadU32(input, offset);
        var kind := ReadU32(input, offset + 4);
        if offset + 12 + len > |input| {
          return false;
        }
        if kind == IHDR {
          if len != 13 {
            return false;
          }
          var w := ReadU32(input, offset + 8);
          var h := ReadU32(input, offset + 12);
          hasIhdr := true;
          if !HeaderSupported(input, offset) {
            return false;
          }
          if w > MaxWidth || h > MaxHeight {
            return false;
          }
          if ImageBytes(w, h) == 0 || !room {
            data := None;
            return false;
          }
          data := Some(Buffer(ImageBytes(w, h), []));
          width, height := w, h;
        } else if kind == IDAT {
          if !hasIhdr || data.None? {
            return false;
          }
          if len > data.value.capacity {
            return false;
          }
          data := Some(CopyInto(data.value, input[offset + 8..offset + 8 + len]));
        } else if kind == IEND {
          if !hasIhdr || data.None? {
            return false;
          }
          return true;
        }
        offset := offset + 12 + len;
      }
      return false;
    }
  }

  // ---------------------------------------------------------------------
  // Centring the logo
  // ---------------------------------------------------------------------

  /** fb_width, fb_height, fb_pitch (bytes per line) and the logo's size. */
  datatype Screen = Screen(fbWidth: nat, fbHeight: nat, fbPitch: nat, logoWidth: nat, logoHeight: nat)

  /** All five are uint32 values. */
  predicate Screen32(sc: Screen)
  {
    sc.fbWidth < U32 && sc.fbHeight < U32 && sc.fbPitch < U32 && sc.logoWidth < U32 && sc.logoHeight < U32
  }

  /** Pixels per framebuffer line. */
  function Stride(sc: Screen): nat
  {
    sc.fbPitch / 4
  }

  /** start_x and start_y: unsigned differences, halved. */
  function StartX(sc: Screen): nat
  {
    (sc.fbWidth - sc.logoWidth) % U32 / 2
  }

  function StartY(sc: Screen): nat
  {
    (sc.fbHeight - sc.logoHeight) % U32 / 2
  }

  /**
   * The product a*b of the uint32 multiplications below, defined one
   * addition at a time so that facts about it come from the lemmas that
   * follow (MulIsProduct says it is the product).
   */
  function Mul(a: nat, b: nat): nat
  {
    if a == 0 then 0 else Mul(a - 1, b) + b
  }

  lemma {:induction false} MulIsProduct(a: nat, b: nat)
    ensures Mul(a, b) == a * b
  {
    if a > 0 {
      MulIsProduct(a - 1, b);
      assert (a - 1) * b + b == a * b;
    }
  }

  lemma {:induction false} MulMonotone(a: nat, b: nat, c: nat)
    requires a <= b
    ensures Mul(a, c) <= Mul(b, c)
    decreases b
  {
    if a < b {
      MulMonotone(a, b - 1, c);
    }
  }

  lemma {:induction false} MulSucc(a: nat, b: nat)
    ensures Mul(a, b + 1) == Mul(a, b) + a
  {
    if a > 0 {
      MulSucc(a - 1, b);
    }
  }

  lemma {:induction false} MulCommutes(a: nat, b: nat)
    ensures Mul(a, b) == Mul(b, a)
  {
    if a > 0 {
      MulCommutes(a - 1, b);
      MulSucc(b, a - 1);
    } else {
      MulZero(b);
    }
  }

  lemma {:induction false} MulZero(b: nat)
    ensures Mul(b, 0) == 0
  {
    if b > 0 {
      MulZero(b - 1);
    }
  }

  /** fb_pos and logo_pos of logo pixel (x, y), as uint32 values. */
  function FbPos(sc: Screen, y: nat, x: nat): nat
  {
    (RowStart(sc, y) + x) % U32
  }

  function LogoPos(sc: Screen, y: nat, x: nat): nat
  {
    (Mul(y, sc.logoWidth) + x) % U32
  }

  /** The two guards of the copy: fb_height*(fb_pitch/4) and width*height. */
  function FbLimit(sc: Screen): nat
  {
    Mul(sc.fbHeight, Stride(sc)) % U32
  }

  function LogoLimit(sc: Screen): nat
  {
    Mul(sc.logoWidth, sc.logoHeight) % U32
  }

  /**
   * The logo fits the screen and no position wraps: then logo row y lands
   * on framebuffer line start_y+y from column start_x on.
   */
  predicate Centred(sc: Screen)
  {
    && sc.logoWidth <= sc.fbWidth <= Stride(sc) && sc.logoHeight <= sc.fbHeight
    && Mul(sc.fbHeight, Stride(sc)) < U32
  }

  /** (start_y + y) * (fb_pitch/4) + start_x, before the uint32 wrap. */
  function RowStart(sc: Screen, y: nat): nat
  {
    Mul(StartY(sc) + y, Stride(sc)) + StartX(sc)
  }

  lemma Below32(n: nat)
    requires n < U32
    ensures n % U32 == n
  {
  }

  /** A centred row lies on its own line, below the guard, in logo order. */
  lemma RowPlaced(sc: Screen, y: nat)
    requires Screen32(sc) && Centred(sc) && y < sc.logoHeight
    ensures RowStart(sc, y) + sc.logoWidth <= FbLimit(sc)
    ensures Mul(y + 1, sc.logoWidth) <= LogoLimit(sc)
    ensures forall x: nat | x < sc.logoWidth ::
      FbPos(sc, y, x) == RowStart(sc, y) + x && LogoPos(sc, y, x) == Mul(y, sc.logoWidth) + x
  {
    RowBelowLimit(sc, y);
    LogoExact(sc, y);
    forall x: nat | x < sc.logoWidth
      ensures FbPos(sc, y, x) == RowStart(sc, y) + x && LogoPos(sc, y, x) == Mul(y, sc.logoWidth) + x
    {
      Below32(RowStart(sc, y) + x);
      Below32(Mul(y, sc.logoWidth) + x);
    }
  }

  lemma RowBelowLimit(sc: Screen, y: nat)
    requires Screen32(sc) && Centred(sc) && y < sc.logoHeight
    ensures RowStart(sc, y) + sc.logoWidth <= FbLimit(sc) == Mul(sc.fbHeight, Stride(sc))
  {
    assert StartY(sc) == (sc.fbHeight - sc.logoHeight) / 2;
    assert StartX(sc) == (sc.fbWidth - sc.logoWidth) / 2;
    MulMonotone(StartY(sc) + y + 1, sc.fbHeight, Stride(sc));
    Below32(Mul(sc.fbHeight, Stride(sc)));
  }

  lemma LogoExact(sc: Screen, y: nat)
    requires Screen32(sc) && Centred(sc) && y < sc.logoHeight
    ensures LogoLimit(sc) == Mul(sc.logoWidth, sc.logoHeight)
    ensures Mul(y + 1, sc.logoWidth) <= LogoLimit(sc)
  {
    var w, h, S, H := sc.logoWidth, sc.logoHeight, Stride(sc), sc.fbHeight;
    MulMonotone(w, S, h);
    MulCommutes(S, h);
    MulMonotone(h, H, S);
    Below32(Mul(w, h));
    MulMonotone(y + 1, h, w);
    MulCommutes(h, w);
  }

  /** Rows further down start after the earlier rows end. */
  lemma RowsApart(sc: Screen, y0: nat, y: nat)
    requires Screen32(sc) && Centred(sc) && y0 < y
    ensures RowStart(sc, y0) + sc.logoWidth <= RowStart(sc, y)
  {
    assert StartX(sc) == (sc.fbWidth - sc.logoWidth) / 2;
    MulMonotone(StartY(sc) + y0 + 1, StartY(sc) + y, Stride(sc));
  }

  /** Logo row y, columns below `upto`: src[logo_pos] is at dest[fb_pos]. */
  ghost predicate RowShown(d: seq<nat>, src: seq<nat>, sc: Screen, y: nat, upto: nat)
  {
    forall x: nat | x < upto ::
      FbPos(sc, y, x) < |d| && LogoPos(sc, y, x) < |src| && d[FbPos(sc, y, x)] == src[LogoPos(sc, y, x)]
  }

  /** d and d0 differ at most in [lo, hi). */
  ghost predicate SameOutside(d: seq<nat>, d0: seq<nat>, lo: nat, hi: nat)
  {
    |d| == |d0| && forall k | 0 <= k < |d| && !(lo <= k < hi) :: d[k] == d0[k]
  }

  /** The inner loop of center_logo: logo row y. */
  method CopyRow(dest: array<nat>, src: seq<nat>, sc: Screen, y: nat)
    requires Screen32(sc) && y < sc.logoHeight
    requires FbLimit(sc) <= dest.Length && LogoLimit(sc) <= |src|
    modifies dest
    ensures forall k | FbLimit(sc) <= k < dest.Length :: dest[k] == old(dest[k])
    ensures Centred(sc) ==> RowShown(dest[..], src, sc, y, sc.logoWidth)
    ensures Centred(sc) ==> SameOutside(dest[..], old(dest[..]), RowStart(sc, y), RowStart(sc, y) + sc.logoWidth)
  {
    if Centred(sc) {
      RowPlaced(sc, y);
    }
    var x := 0;
    while x < sc.logoWidth
      invariant x <= sc.logoWidth
      invariant forall k | FbLimit(sc) <= k < dest.Length :: dest[k] == old(dest[k])
      invariant Centred(sc) ==> RowShown(dest[..], src, sc, y, x)
      invariant Centred(sc) ==> SameOutside(dest[..], old(dest[..]), RowStart(sc, y), RowStart(sc, y) + x)
    {
      var fbPos := FbPos(sc, y, x);
      var logoPos := LogoPos(sc, y, x);
      if fbPos < FbLimit(sc) && logoPos < LogoLimit(sc) {
        dest[fbPos] := src[logoPos];
      }
      x := x + 1;
    }
  }

  /** Position k lies in none of the first n centred logo rows. */
  ghost predicate OutsideRows(sc: Screen, k: nat, n: nat)
  {
    forall y: nat | y < n :: !(RowStart(sc, y) <= k < RowStart(sc, y) + sc.logoWidth)
  }

  /** d and d0 agree at every position outside the first n logo rows. */
  ghost predicate KeptOutside(d: seq<nat>, d0: seq<nat>, sc: Screen, n: nat)
  {
    |d| == |d0| && forall k: nat | k < |d| && OutsideRows(sc, k, n) :: d[k] == d0[k]
  }

  /** Copying row n, which changes only that row's span, extends the frame by one row. */
  lemma KeptOneMore(d: seq<nat>, before: seq<nat>, d0: seq<nat>, sc: Screen, n: nat)
    requires KeptOutside(before, d0, sc, n)
    requires SameOutside(d, before, RowStart(sc, n), RowStart(sc, n) + sc.logoWidth)
    ensures KeptOutside(d, d0, sc, n + 1)
  {
    forall k: nat | k < |d| && OutsideRows(sc, k, n + 1)
      ensures d[k] == d0[k]
    {
      assert !(RowStart(sc, n) <= k < RowStart(sc, n) + sc.logoWidth);
      assert OutsideRows(sc, k, n);
    }
  }

  /**
   * center_logo: every write is guarded by fb_pos < fb_height*(fb_pitch/4),
   * so nothing at or past that position changes; when the logo fits the
   * screen, every logo pixel is at its centred place and every position
   * outside the logo rows keeps its value.
   */
  method CenterLogo(dest: array<nat>, src: seq<nat>, sc: Screen)
    requires Screen32(sc)
    requires FbLimit(sc) <= dest.Length && LogoLimit(sc) <= |src|
    modifies dest
    ensures forall k | FbLimit(sc) <= k < dest.Length :: dest[k] == old(dest[k])
    ensures Centred(sc) ==> forall y: nat | y < sc.logoHeight :: RowShown(dest[..], src, sc, y, sc.logoWidth)
    ensures Centred(sc) ==> KeptOutside(dest[..], old(dest[..]), sc, sc.logoHeight)
  {
    var y := 0;
    while y < sc.logoHeight
      invariant y <= sc.logoHeight
      invariant forall k | FbLimit(sc) <= k < dest.Length :: dest[k] == old(dest[k])
      invariant Centred(sc) ==> forall y0: nat | y0 < y :: RowShown(dest[..], src, sc, y0, sc.logoWidth)
      invariant Centred(sc) ==> KeptOutside(dest[..], old(dest[..]), sc, y)
    {
      ghost var before := dest[..];
      CopyRow(dest, src, sc, y);
      if Centred(sc) {
        forall y0: nat | y0 < y
          ensures RowShown(dest[..], src, sc, y0, sc.logoWidth)
        {
          RowsApart(sc, y0, y);
          assert RowShown(before, src, sc, y0, sc.logoWidth);
        }
        KeptOneMore(dest[..], before, old(dest[..]), sc, y);
      }
      y := y + 1;
    }
  }

  // ---------------------------------------------------------------------
  // Alpha blending
  // ---------------------------------------------------------------------

  /** Channel `shift` (16 red, 8 green, 0 blue) of a 0xAARRGGBB colour. */
  function Channel(c: nat, shift: nat): (r: nat)
    requires shift == 0 || shift == 8 || shift == 16
    ensures r < 256
  {
    if shift == 16 then c / 0x1_0000 % 0x100 else if shift == 8 then c / 0x100 % 0x100 else c % 0x100
  }

  /** One blended channel: (x*(255-a) + y*a)/255. */
  function Mix(x: nat, y: nat, a: byte): (r: nat)
    requires x < 256 && y < 256
    ensures r < 256
    ensures x <= y ==> x <= r <= y
    ensures y <= x ==> y <= r <= x
  {
    MixBounds(x, y, a);
    (x * (255 - a) + y * a) / 255
  }

  lemma MixBounds(x: nat, y: nat, a: byte)
    requires x < 256 && y < 256
    ensures x <= y ==> x * 255 <= x * (255 - a) + y * a <= y * 255
    ensures y <= x ==> y * 255 <= x * (255 - a) + y * a <= x * 255
  {
    var d: int := y - x;
    assert x * (255 - a) == x * 255 - x * a;
    assert y * a - x * a == d * a;
    assert y * 255 - x * 255 == d * 255;
    assert d * 255 - d * a == d * (255 - a);
    if x <= y {
      assert 0 <= d * a && 0 <= d * (255 - a);
    } else {
      assert d * a <= 0 && d * (255 - a) <= 0;
    }
  }

  /** (r << 16) | (g << 8) | b for three channel values. */
  function Pack(r: nat, g: nat, b: nat): nat
  {
    r * 0x1_0000 + g * 0x100 + b
  }

  /** Pack and Channel are inverse: the channels of a packed colour. */
  lemma PackChannels(r: nat, g: nat, b: nat)
    requires r < 256 && g < 256 && b < 256
    ensures Pack(r, g, b) < 0x100_0000
    ensures Channel(Pack(r, g, b), 16) == r && Channel(Pack(r, g, b), 8) == g && Channel(Pack(r, g, b), 0) == b
  {
    var p := Pack(r, g, b);
    assert p / 0x1_0000 == r;
    assert p / 0x100 == r * 0x100 + g;
  }

  /** The low 24 bits of a colour are its three channels packed. */
  lemma ChannelsPack(c: nat)
    ensures Pack(Channel(c, 16), Channel(c, 8), Channel(c, 0)) == c % 0x100_0000
  {
    var q := c / 0x100;
    assert c == q * 0x100 + c % 0x100;
    assert q == q / 0x100 * 0x100 + q % 0x100;
    assert c / 0x1_0000 == q / 0x100;
    assert c % 0x100_0000 == (c / 0x1_0000 % 0x100) * 0x1_0000 + (q % 0x100) * 0x100 + c % 0x100;
  }

  /** blend_color: each channel mixed, packed as 0x00RRGGBB. */
  function BlendColor(c1: nat, c2: nat, alpha: byte): (r: nat)
    ensures r < 0x100_0000
  {
    var red := Mix(Channel(c1, 16), Channel(c2, 16), alpha);
    var green := Mix(Channel(c1, 8), Channel(c2, 8), alpha);
    var blue := Mix(Channel(c1, 0), Channel(c2, 0), alpha);
    PackChannels(red, green, blue);
    Pack(red, green, blue)
  }

  /** Each channel of the blend is the mix of the two colours' channels. */
  lemma BlendChannels(c1: nat, c2: nat, alpha: byte)
    ensures Channel(BlendColor(c1, c2, alpha), 16) == Mix(Channel(c1, 16), Channel(c2, 16), alpha)
    ensures Channel(BlendColor(c1, c2, alpha), 8) == Mix(Channel(c1, 8), Channel(c2, 8), alpha)
    ensures Channel(BlendColor(c1, c2, alpha), 0) == Mix(Channel(c1, 0), Channel(c2, 0), alpha)
  {
    PackChannels(Mix(Channel(c1, 16), Channel(c2, 16), alpha),
      Mix(Channel(c1, 8), Channel(c2, 8), alpha), Mix(Channel(c1, 0), Channel(c2, 0), alpha));
  }

  /** Alpha 0 keeps c1's colour and alpha 255 gives c2's; bits 24-31 are 0. */
  lemma BlendEnds(c1: nat, c2: nat)
    ensures BlendColor(c1, c2, 0) == c1 % 0x100_0000
    ensures BlendColor(c1, c2, 255) == c2 % 0x100_0000
  {
    forall x: nat, y: nat | x < 256 && y < 256
      ensures Mix(x, y, 0) == x && Mix(x, y, 255) == y
    {
      assert x * (255 - 0) + y * 0 == x * 255;
      assert x * (255 - 255) + y * 255 == y * 255;
    }
    ChannelsPack(c1);
    ChannelsPack(c2);
  }
}
