/**
 * The pixel conversions of src/clipboard_win32.cpp between a Windows
 * device-independent bitmap (a `BITMAPINFOHEADER` followed by bottom-up rows
 * of BGR or BGRA pixels, each row padded to a multiple of four bytes) and a
 * top-down RGBA8 image.
 *
 * The clipboard itself (`OpenClipboard`, `GlobalAlloc`, `GlobalLock`, ...)
 * is not modelled: the DIB is a byte sequence handed in or handed out. The
 * RGBA image is an `array3<Byte>` indexed `[row, column, channel]`, the
 * row-major layout of the `width * height * 4` byte buffer.
 */
module ClipboardDib {
  import opened StringUtil

  newtype Byte = b: int | 0 <= b < 256

  /** `sizeof(BITMAPINFOHEADER)`. */
  const InfoHeaderSize := 40
  const BiRgb := 0
  const BiBitfields := 3
  const TwoTo31 := 0x8000_0000
  const TwoTo32 := 0x1_0000_0000

  ///////////////////////////////////////////////////////////////////////////
  // little-endian fields

  function U16(d: seq<Byte>, off: nat): (v: nat)
    requires off + 2 <= |d|
    ensures v < 0x1_0000
  {
    d[off] as int + 0x100 * d[off + 1] as int
  }

  function U32(d: seq<Byte>, off: nat): (v: nat)
    requires off + 4 <= |d|
    ensures v < TwoTo32
  {
    U16(d, off) + 0x1_0000 * U16(d, off + 2)
  }

  /** A 32-bit pattern read as a two's-complement `int` (a `LONG`, or `int(DWORD)`). */
  function Int32(v: int): (r: int)
    requires 0 <= v < TwoTo32
    ensures -TwoTo31 <= r < TwoTo31
    ensures r == v || r == v - TwoTo32
    ensures v < TwoTo31 <==> r == v
  {
    if v < TwoTo31 then v else v - TwoTo32
  }

  function LE16(v: nat): (s: seq<Byte>)
    requires v < 0x1_0000
    ensures |s| == 2 && U16(s, 0) == v
  {
    [(v % 0x100) as Byte, (v / 0x100) as Byte]
  }

  function LE32(v: nat): (s: seq<Byte>)
    requires v < TwoTo32
    ensures |s| == 4 && U32(s, 0) == v
  {
    var s := LE16(v % 0x1_0000) + LE16(v / 0x1_0000);
    assert U16(s, 2) == U16(LE16(v / 0x1_0000), 0);
    s
  }

  lemma U16Of(d: seq<Byte>, off: nat, v: nat)
    requires off + 2 <= |d| && v < 0x1_0000 && d[off..off + 2] == LE16(v)
    ensures U16(d, off) == v
  {
    assert d[off] == d[off..off + 2][0] && d[off + 1] == d[off..off + 2][1];
  }

  lemma U32Of(d: seq<Byte>, off: nat, v: nat)
    requires off + 4 <= |d| && v < TwoTo32 && d[off..off + 4] == LE32(v)
    ensures U32(d, off) == v
  {
    var s := LE32(v);
    assert d[off] == d[off..off + 4][0] && d[off + 1] == d[off..off + 4][1];
    assert d[off + 2] == d[off..off + 4][2] && d[off + 3] == d[off..off + 4][3];
    assert U32(d, off) == U32(s, 0);
  }

  ///////////////////////////////////////////////////////////////////////////
  // the header

  /** The `BITMAPINFOHEADER` fields the decoder looks at. */
  datatype InfoHeader = InfoHeader(size: nat, width: int, height: int, planes: nat, bitCount: nat, compression: nat)

  function ParseHeader(d: seq<Byte>): InfoHeader
    requires |d| >= InfoHeaderSize
  {
    InfoHeader(U32(d, 0), Int32(U32(d, 4)), Int32(U32(d, 8)), U16(d, 12), U16(d, 14), U32(d, 16))
  }

  /** Bytes per pixel: 4 for 32-bit DIBs, 3 otherwise. */
  function Bpp(h: InfoHeader): (b: int)
    ensures b == 3 || b == 4
  {
    if h.bitCount == 32 then 4 else 3
  }

  /**
   * `(width * bpp + 3) & ~3`, for `rowBytes == width * bpp`. Clearing the two low bits of a two's-complement
   * number rounds it down to a multiple of four, which is floor division.
   */
  function Stride(rowBytes: int): (s: int)
    ensures s % 4 == 0
    ensures rowBytes <= s < rowBytes + 4
  {
    ((rowBytes + 3) / 4) * 4
  }

  /** `std::abs(int(biHeight))`; the absolute value of INT_MIN overflows and stays INT_MIN. */
  function AbsHeight(v: int): (r: int)
    ensures v != -TwoTo31 ==> r >= 0 && (r == v || r == -v)
  {
    if v == -TwoTo31 then v else if v < 0 then -v else v
  }

  /** The three `BI_BITFIELDS` masks that make the layout the one of `BI_RGB`. */
  predicate MasksRgb(d: seq<Byte>, off: nat)
    requires off + 12 <= |d|
  {
    U32(d, off) == 0x00FF_0000 && U32(d, off + 4) == 0x0000_FF00 && U32(d, off + 8) == 0x0000_00FF
  }

  /** Rows of one 24-bit or 32-bit pixel take four bytes. */
  lemma SmallStrides()
    ensures Stride(3) == 4 && Stride(4) == 4
  {
  }

  /** Rows of 32-bit pixels need no padding. */
  lemma WordStride(w: int)
    ensures Stride(w * 4) == 4 * w
  {
  }

  /** `dibSize >= base + height * stride`, with `base` the pixel data offset as the check computes it. */
  predicate SizeCheck(dibSize: int, base: int, h: InfoHeader) {
    dibSize >= base + AbsHeight(h.height) * Stride(h.width * Bpp(h))
  }

  /**
   * The `headerOK` computation as written, where `biSize` is converted to a
   * signed `int` and `biSize + 12` is computed modulo 2^32. `None` stands for
   * a run that reads the `BI_BITFIELDS` masks from outside the buffer.
   */
  function HeaderCheckAsWritten(d: seq<Byte>): (r: Option<bool>)
  {
    if |d| < InfoHeaderSize then Some(false)
    else
      var h := ParseHeader(d);
      if !(Int32(h.size) < |d|) || h.planes != 1 then Some(false)
      else if h.compression == BiRgb && (h.bitCount == 24 || h.bitCount == 32) then
        Some(SizeCheck(|d|, Int32(h.size), h))
      else if !(h.compression == BiBitfields && h.bitCount == 32 && |d| > Int32((h.size + 12) % TwoTo32)) then
        Some(false)
      else if h.size + 12 > |d| then None
      else Some(MasksRgb(d, h.size) && SizeCheck(|d|, Int32(h.size), h))
  }

  /** The first 20 bytes of a `BITMAPINFOHEADER`, the ones `ParseHeader` reads, from raw 32- and 16-bit values. */
  function Fields(size: nat, width: nat, height: nat, planes: nat, bitCount: nat, compression: nat): (s: seq<Byte>)
    requires size < TwoTo32 && width < TwoTo32 && height < TwoTo32
    requires planes < 0x1_0000 && bitCount < 0x1_0000 && compression < TwoTo32
    ensures |s| == 20
  {
    LE32(size) + LE32(width) + LE32(height) + LE16(planes) + LE16(bitCount) + LE32(compression)
  }

  /** Parsing written fields gives back their values, the width and height read as signed. */
  lemma {:induction false} ParseFields(size: nat, width: nat, height: nat, planes: nat, bitCount: nat, compression: nat, tail: seq<Byte>)
    requires size < TwoTo32 && width < TwoTo32 && height < TwoTo32
    requires planes < 0x1_0000 && bitCount < 0x1_0000 && compression < TwoTo32
    requires |tail| >= InfoHeaderSize - 20
    ensures ParseHeader(Fields(size, width, height, planes, bitCount, compression) + tail)
      == InfoHeader(size, Int32(width), Int32(height), planes, bitCount, compression)
  {
    var d := Fields(size, width, height, planes, bitCount, compression) + tail;
    assert d[0..4] == LE32(size);
    assert d[4..8] == LE32(width);
    assert d[8..12] == LE32(height);
    assert d[12..14] == LE16(planes);
    assert d[14..16] == LE16(bitCount);
    assert d[16..20] == LE32(compression);
    U32Of(d, 0, size);
    U32Of(d, 4, width);
    U32Of(d, 8, height);
    U16Of(d, 12, planes);
    U16Of(d, 14, bitCount);
    U32Of(d, 16, compression);
  }

  /** The header check with `biSize` taken as the unsigned offset it is. */
  predicate HeaderAccepted(d: seq<Byte>) {
    |d| >= InfoHeaderSize &&
    var h := ParseHeader(d);
    h.size < |d| && h.planes == 1 &&
    ((h.compression == BiRgb && (h.bitCount == 24 || h.bitCount == 32)) ||
     (h.compression == BiBitfields && h.bitCount == 32 && |d| > h.size + 12 && MasksRgb(d, h.size))) &&
    SizeCheck(|d|, h.size, h)
  }

  /** Whenever `biSize` is below 2^31 - 12 the conversions cannot bite and both checks agree. */
  lemma HeaderCheckAgrees(d: seq<Byte>)
    requires |d| >= InfoHeaderSize && ParseHeader(d).size < TwoTo31 - 12
    ensures HeaderCheckAsWritten(d) == Some(HeaderAccepted(d))
  {
    var h := ParseHeader(d);
    assert Int32((h.size + 12) % TwoTo32) == h.size + 12;
  }

  /**
   * A 24-bit `BI_RGB` header of one pixel whose `biSize` is 0x80000000: as
   * an `int` that is negative, so the checks pass although the pixel data
   * would start two gigabytes past the end of the 44-byte buffer.
   */
  lemma NegativeBiSizeAccepted()
    ensures var d := BigBiSizeDib();
      && |d| == 44 && HeaderCheckAsWritten(d) == Some(true)
      && !HeaderAccepted(d) && ParseHeader(d).size > |d|
  {
    var d := BigBiSizeDib();
    ParseFields(TwoTo31, 1, 1, 1, 24, BiRgb, seq(24, _ => 0));
    BigBiSizeChecks(d);
  }

  lemma BigBiSizeChecks(d: seq<Byte>)
    requires InfoHeaderSize <= |d| < TwoTo31 && ParseHeader(d) == InfoHeader(TwoTo31, 1, 1, 1, 24, BiRgb)
    ensures HeaderCheckAsWritten(d) == Some(true) && !HeaderAccepted(d)
  {
    SmallStrides();
  }

  /** `biSize` 0x80000000, a 1 x 1 picture, one plane, 24 bits, `BI_RGB`, 24 more bytes. */
  function BigBiSizeDib(): seq<Byte> {
    Fields(TwoTo31, 1, 1, 1, 24, BiRgb) + seq(24, _ => 0)
  }

  ///////////////////////////////////////////////////////////////////////////
  // DIB to RGBA

  /**
   * The DIBs `getRGBA8Image` converts itself: an accepted header and a
   * `malloc(width * height * 4)` asked for a non-negative size. (A negative
   * width with a nonzero height, or the INT_MIN height `std::abs` leaves
   * negative with a nonzero width, makes that size huge as a `size_t`, the
   * allocation fails and the DIB goes to the stb_image fallback. When the
   * product is 0 instead, `malloc(0)` succeeds and the source returns an
   * empty image with a negative dimension, which an `array3` cannot hold;
   * the model returns null for those DIBs as well.)
   */
  predicate Decodable(d: seq<Byte>) {
    HeaderAccepted(d) && ParseHeader(d).width >= 0 && AbsHeight(ParseHeader(d).height) >= 0
  }

  function Width(d: seq<Byte>): nat
    requires Decodable(d)
  {
    ParseHeader(d).width
  }

  function Height(d: seq<Byte>): nat
    requires Decodable(d)
  {
    AbsHeight(ParseHeader(d).height)
  }

  lemma MulMono(a: int, b: int, c: int)
    requires a <= b && 0 <= c
    ensures a * c <= b * c
  {
    assert (b - a) * c >= 0;
  }

  /** The offset of pixel `X` of the `r`-th stored row; all its bytes lie inside the DIB. */
  function PixelOffset(d: seq<Byte>, r: int, X: int): (o: nat)
    requires Decodable(d) && 0 <= r < Height(d) && 0 <= X < Width(d)
    ensures o + Bpp(ParseHeader(d)) <= |d|
  {
    var h := ParseHeader(d);
    var s := Stride(h.width * Bpp(h));
    OffsetInside(h.size, r, X, Height(d), Width(d), Bpp(h), s, |d|);
    h.size + r * s + X * Bpp(h)
  }

  /** Pixel `X` of row `r` ends within `n` bytes if the `height` rows of `stride` bytes do. */
  lemma OffsetInside(base: int, r: int, X: int, height: int, width: int, bpp: int, stride: int, n: int)
    requires 0 <= r < height && 0 <= X < width && 0 < bpp && width * bpp <= stride
    requires base + height * stride <= n
    ensures base <= base + r * stride + X * bpp && base + r * stride + X * bpp + bpp <= n
  {
    MulMono(0, X, bpp);
    MulMono(0, width, bpp);
    MulMono(0, r, stride);
    MulMono(r + 1, height, stride);
    MulMono(X + 1, width, bpp);
  }

  /**
   * What the conversion loop writes to channel `k` of pixel (`X`, `Y`):
   * output row `Y` comes from stored row `height - 1 - Y`, the channels
   * from B, G, R (and A) in reverse order, and 24-bit pixels get alpha 255.
   */
  function Converted(d: seq<Byte>, Y: int, X: int, k: int): Byte
    requires Decodable(d) && 0 <= Y < Height(d) && 0 <= X < Width(d) && 0 <= k < 4
  {
    var o := PixelOffset(d, Height(d) - 1 - Y, X);
    if k == 3 then (if Bpp(ParseHeader(d)) == 4 then d[o + 3] else 255)
    else d[o + 2 - k]
  }

  /** Every converted alpha is zero: the case the opacity fix-up is meant for. */
  ghost predicate AllAlphaZero(d: seq<Byte>)
    requires Decodable(d)
  {
    forall Y, X :: 0 <= Y < Height(d) && 0 <= X < Width(d) ==> Converted(d, Y, X, 3) == 0
  }

  /** The converted byte, with alpha forced to 0xFF when `forced`. */
  function DecodedWith(d: seq<Byte>, forced: bool, Y: int, X: int, k: int): Byte
    requires Decodable(d) && 0 <= Y < Height(d) && 0 <= X < Width(d) && 0 <= k < 4
  {
    if k == 3 && forced then 0xFF else Converted(d, Y, X, k)
  }

  /**
   * The decoded byte as written: the fix-up runs when `maxAlpha <= 0xFF`,
   * which every `uint8_t` satisfies, so every alpha becomes 0xFF.
   */
  function DecodedAsWritten(d: seq<Byte>, Y: int, X: int, k: int): (b: Byte)
    requires Decodable(d) && 0 <= Y < Height(d) && 0 <= X < Width(d) && 0 <= k < 4
    ensures k == 3 ==> b == 0xFF
    ensures k < 3 ==> b == Converted(d, Y, X, k)
  {
    DecodedWith(d, true, Y, X, k)
  }

  /** The decoded byte with the fix-up only for images whose alpha is zero throughout. */
  ghost function Decoded(d: seq<Byte>, Y: int, X: int, k: int): Byte
    requires Decodable(d) && 0 <= Y < Height(d) && 0 <= X < Width(d) && 0 <= k < 4
  {
    DecodedWith(d, AllAlphaZero(d), Y, X, k)
  }

  /**
   * `getRGBA8Image` from the `CF_DIB` data on: the direct conversion when
   * the DIB is one it handles itself, `null` when it is left to the
   * stb_image fallback.
   */
  method GetRgba8Image(d: seq<Byte>) returns (pixels: array3?<Byte>)
    ensures pixels != null <==> Decodable(d)
    ensures pixels != null ==> fresh(pixels)
    ensures pixels != null ==>
      pixels.Length0 == Height(d) && pixels.Length1 == Width(d) && pixels.Length2 == 4
    ensures pixels != null ==>
      forall Y, X, k :: 0 <= Y < Height(d) && 0 <= X < Width(d) && 0 <= k < 4 ==>
        pixels[Y, X, k] == Decoded(d, Y, X, k)
  {
    if !Decodable(d) {
      return null;
    }
    pixels := DecodeDirect(d);
  }

  /**
   * The direct branch of `getRGBA8Image`: the rows converted bottom-up with
   * the running maximum alpha, then the opacity fix-up, here with the
   * intended test `maxAlpha == 0`.
   */
  method DecodeDirect(d: seq<Byte>) returns (pixels: array3<Byte>)
    requires Decodable(d)
    ensures fresh(pixels)
    ensures pixels.Length0 == Height(d) && pixels.Length1 == Width(d) && pixels.Length2 == 4
    ensures forall Y, X, k :: 0 <= Y < Height(d) && 0 <= X < Width(d) && 0 <= k < 4 ==>
      pixels[Y, X, k] == Decoded(d, Y, X, k)
  {
    var h := ParseHeader(d);
    var width, height, bpp := Width(d), Height(d), Bpp(h);
    var stride := Stride(width * bpp);
    pixels := new Byte[height, width, 4];
    var maxAlpha: Byte := if bpp > 3 then 0 else 255;
    var lineSkip := stride - width * bpp;
    var src := h.size;
    var y: int, rows: nat := height - 1, 0;
    while y >= 0
      invariant -1 <= y < height && rows == height - 1 - y
      invariant src == h.size + rows * stride
      invariant forall Y, X, k :: y < Y < height && 0 <= X < width && 0 <= k < 4 ==>
        pixels[Y, X, k] == Converted(d, Y, X, k)
      invariant bpp == 3 ==> maxAlpha == 255
      invariant bpp == 4 ==> (maxAlpha == 0 <==>
        forall Y, X :: y < Y < height && 0 <= X < width ==> Converted(d, Y, X, 3) == 0)
    {
      var next;
      next, maxAlpha := ConvertRow(d, pixels, y, src, maxAlpha);
      assert rows * stride + stride == (rows + 1) * stride;
      src := next + lineSkip;
      y, rows := y - 1, rows + 1;
    }
    if maxAlpha == 0 {
      MakeOpaque(pixels);
    }
  }

  /** The inner loop of the conversion: row `y` of the output from the stored row at `src`. */
  method ConvertRow(d: seq<Byte>, pixels: array3<Byte>, y: int, src: int, maxAlpha: Byte) returns (next: int, m: Byte)
    requires Decodable(d)
    requires pixels.Length0 == Height(d) && pixels.Length1 == Width(d) && pixels.Length2 == 4
    requires 0 <= y < Height(d)
    requires src == ParseHeader(d).size + (Height(d) - 1 - y) * Stride(Width(d) * Bpp(ParseHeader(d)))
    requires Bpp(ParseHeader(d)) == 3 ==> maxAlpha == 255
    modifies pixels
    ensures next == src + Width(d) * Bpp(ParseHeader(d))
    ensures forall X, k :: 0 <= X < Width(d) && 0 <= k < 4 ==> pixels[y, X, k] == Converted(d, y, X, k)
    ensures forall Y, X, k {:trigger pixels[Y, X, k]} :: 0 <= Y < pixels.Length0 && 0 <= X < pixels.Length1 && 0 <= k < 4 && Y != y ==>
      pixels[Y, X, k] == old(pixels[Y, X, k])
    ensures Bpp(ParseHeader(d)) == 3 ==> m == 255
    ensures Bpp(ParseHeader(d)) == 4 ==>
      (m == 0 <==> maxAlpha == 0 && forall X :: 0 <= X < Width(d) ==> Converted(d, y, X, 3) == 0)
  {
    var bpp, width := Bpp(ParseHeader(d)), Width(d);
    next, m := src, maxAlpha;
    var x := 0;
    while x < width
      invariant 0 <= x <= width
      invariant next == src + x * bpp
      invariant forall X, k :: 0 <= X < x && 0 <= k < 4 ==> pixels[y, X, k] == Converted(d, y, X, k)
      invariant forall Y, X, k {:trigger pixels[Y, X, k]} ::
        0 <= Y < pixels.Length0 && 0 <= X < pixels.Length1 && 0 <= k < 4 && (Y != y || x <= X) ==>
        pixels[Y, X, k] == old(pixels[Y, X, k])
      invariant bpp == 3 ==> m == 255
      invariant bpp == 4 ==> (m == 0 <==> maxAlpha == 0 && forall X :: 0 <= X < x ==> Converted(d, y, X, 3) == 0)
    {
      assert next == PixelOffset(d, Height(d) - 1 - y, x);
      var alpha: Byte := if bpp > 3 then d[next + 3] else 255;
      assert Converted(d, y, x, 0) == d[next + 2] && Converted(d, y, x, 1) == d[next + 1];
      assert Converted(d, y, x, 2) == d[next] && Converted(d, y, x, 3) == alpha;
      StorePixel(pixels, y, x, d[next + 2], d[next + 1], d[next], alpha);
      if bpp > 3 && alpha > m {
        m := alpha;
      }
      assert x * bpp + bpp == (x + 1) * bpp;
      next := next + bpp;
      x := x + 1;
    }
  }

  /** The four `*pDest++` writes of one pixel. */
  method StorePixel(pixels: array3<Byte>, Y: int, X: int, r: Byte, g: Byte, b: Byte, a: Byte)
    requires 0 <= Y < pixels.Length0 && 0 <= X < pixels.Length1 && pixels.Length2 == 4
    modifies pixels
    ensures pixels[Y, X, 0] == r && pixels[Y, X, 1] == g && pixels[Y, X, 2] == b && pixels[Y, X, 3] == a
    ensures forall Y', X', k {:trigger pixels[Y', X', k]} ::
      0 <= Y' < pixels.Length0 && 0 <= X' < pixels.Length1 && 0 <= k < 4 && (Y' != Y || X' != X) ==>
      pixels[Y', X', k] == old(pixels[Y', X', k])
  {
    pixels[Y, X, 0] := r;
    pixels[Y, X, 1] := g;
    pixels[Y, X, 2] := b;
    pixels[Y, X, 3] := a;
  }

  /** The fix-up loop: alpha 0xFF for every pixel, colours untouched. */
  method MakeOpaque(pixels: array3<Byte>)
    requires pixels.Length2 == 4
    modifies pixels
    ensures forall Y, X, k :: 0 <= Y < pixels.Length0 && 0 <= X < pixels.Length1 && 0 <= k < 4 ==>
      pixels[Y, X, k] == if k == 3 then 0xFF else old(pixels[Y, X, k])
  {
    for Y := 0 to pixels.Length0
      invariant forall Y', X, k :: 0 <= Y' < pixels.Length0 && 0 <= X < pixels.Length1 && 0 <= k < 4 ==>
        pixels[Y', X, k] == if k == 3 && Y' < Y then 0xFF else old(pixels[Y', X, k])
    {
      for X := 0 to pixels.Length1
        invariant forall Y', X', k :: 0 <= Y' < pixels.Length0 && 0 <= X' < pixels.Length1 && 0 <= k < 4 ==>
          pixels[Y', X', k] == if k == 3 && (Y' < Y || (Y' == Y && X' < X)) then 0xFF else old(pixels[Y', X', k])
      {
        pixels[Y, X, 3] := 0xFF;
      }
    }
  }

  /**
   * One 32-bit pixel of alpha 0x80: as written the decoded alpha is 0xFF,
   * with the intended test it is the stored 0x80.
   */
  lemma AlphaDroppedAsWritten()
    ensures Decodable(HalfAlphaDib())
    ensures Converted(HalfAlphaDib(), 0, 0, 3) == 0x80
    ensures DecodedAsWritten(HalfAlphaDib(), 0, 0, 3) == 0xFF
    ensures Decoded(HalfAlphaDib(), 0, 0, 3) == 0x80
  {
    var d := HalfAlphaDib();
    ParseFields(40, 1, 1, 1, 32, BiRgb, seq(20, _ => 0) + [0x10, 0x20, 0x30, 0x80]);
    OnePixelAlpha(d);
    assert d[43] == 0x80;
  }

  /** In a 1 x 1 DIB with the encoder's header, a nonzero stored alpha survives the intended test only. */
  lemma OnePixelAlpha(d: seq<Byte>)
    requires |d| == InfoHeaderSize + 4 && ParseHeader(d) == InfoHeader(InfoHeaderSize, 1, 1, 1, 32, BiRgb)
    ensures Decodable(d) && Width(d) == 1 && Height(d) == 1
    ensures Converted(d, 0, 0, 3) == d[43]
    ensures d[43] != 0 ==> Decoded(d, 0, 0, 3) == d[43]
  {
    ConvertedOfEncoder(d, 1, 1, 0, 0, 3);
  }

  /** A 40-byte header (1 x 1, one plane, 32 bits, `BI_RGB`) and one BGRA pixel of alpha 0x80. */
  function HalfAlphaDib(): seq<Byte> {
    Fields(40, 1, 1, 1, 32, BiRgb) + (seq(20, _ => 0) + [0x10, 0x20, 0x30, 0x80])
  }

  ///////////////////////////////////////////////////////////////////////////
  // RGBA to DIB

  /** An RGBA8 image whose width and height fit the `LONG` header fields. */
  predicate ImageShape(img: array3<Byte>) {
    img.Length2 == 4 && img.Length0 < TwoTo31 && img.Length1 < TwoTo31
  }

  /**
   * The header `setRGBA8ImageAndText` writes: 40 bytes, the width, a
   * positive (bottom-up) height, one plane, 32 bits, `BI_RGB`, the image
   * size, 3780 pixels per metre (96 dpi) both ways, no palette.
   */
  function InfoHeaderBytes(width: nat, height: nat): (s: seq<Byte>)
    requires width < TwoTo31 && height < TwoTo31
    ensures |s| == InfoHeaderSize
  {
    Fields(InfoHeaderSize, width, height, 1, 32, BiRgb)
      + LE32((width * height * 4) % TwoTo32) + LE32(3780) + LE32(3780) + LE32(0) + LE32(0)
  }

  /** One pixel as stored: B, G, R, A. */
  function PixelBgra(img: array3<Byte>, Y: int, X: int): (s: seq<Byte>)
    requires 0 <= Y < img.Length0 && 0 <= X < img.Length1 && img.Length2 == 4
    reads img
    ensures |s| == 4
  {
    [img[Y, X, 2], img[Y, X, 1], img[Y, X, 0], img[Y, X, 3]]
  }

  /** The first `n` pixels of image row `Y`, as stored. */
  function RowBytes(img: array3<Byte>, Y: int, n: nat): (s: seq<Byte>)
    requires 0 <= Y < img.Length0 && n <= img.Length1 && img.Length2 == 4
    reads img
    ensures |s| == 4 * n
  {
    if n == 0 then [] else RowBytes(img, Y, n - 1) + PixelBgra(img, Y, n - 1)
  }

  /** The first `n` stored rows; the `r`-th stored row is image row `height - 1 - r`. */
  function StoredRows(img: array3<Byte>, n: nat): seq<Byte>
    requires n <= img.Length0 && img.Length2 == 4
    reads img
  {
    if n == 0 then [] else StoredRows(img, n - 1) + RowBytes(img, img.Length0 - n, img.Length1)
  }

  /** Byte `i` of the `r`-th stored row. */
  function StoredByte(img: array3<Byte>, r: int, i: int): Byte
    requires img.Length2 == 4 && 0 <= r < img.Length0 && 0 <= i < 4 * img.Length1
    reads img
  {
    RowBytes(img, img.Length0 - 1 - r, img.Length1)[i]
  }

  /** The DIB `setRGBA8ImageAndText` hands to the clipboard. */
  function EncodedDib(img: array3<Byte>): seq<Byte>
    requires ImageShape(img)
    reads img
  {
    InfoHeaderBytes(img.Length1, img.Length0) + StoredRows(img, img.Length0)
  }

  /**
   * The sanity check and the copy loop of `setRGBA8ImageAndText`: `None`
   * (returning false) for a null image or an empty dimension, else the DIB,
   * written row by row from the bottom, each pixel swizzled to BGRA.
   */
  method EncodeDib(img: array3?<Byte>) returns (dib: Option<seq<Byte>>)
    requires img != null ==> ImageShape(img)
    ensures dib.None? <==> img == null || img.Length0 < 1 || img.Length1 < 1
    ensures dib.Some? ==> img != null && dib.value == EncodedDib(img)
  {
    if img == null || img.Length1 < 1 || img.Length0 < 1 {
      return None;
    }
    var out := CopyImage(img);
    return Some(out);
  }

  /** The header and the outer copy loop, from the bottom row up. */
  method CopyImage(img: array3<Byte>) returns (out: seq<Byte>)
    requires ImageShape(img)
    ensures out == EncodedDib(img)
  {
    var width, height := img.Length1, img.Length0;
    out := InfoHeaderBytes(width, height);
    var y: int, rows: nat := height - 1, 0;
    while y >= 0
      invariant -1 <= y < height && rows == height - 1 - y
      invariant out == InfoHeaderBytes(width, height) + StoredRows(img, rows)
    {
      out := AppendRow(img, y, out);
      y, rows := y - 1, rows + 1;
    }
  }

  /** The inner copy loop: row `Y` of the image appended pixel by pixel. */
  method AppendRow(img: array3<Byte>, Y: int, out: seq<Byte>) returns (res: seq<Byte>)
    requires 0 <= Y < img.Length0 && img.Length2 == 4
    ensures res == out + RowBytes(img, Y, img.Length1)
  {
    res := out;
    var x := 0;
    while x < img.Length1
      invariant 0 <= x <= img.Length1
      invariant res == out + RowBytes(img, Y, x)
    {
      var r, g, b, a := img[Y, x, 0], img[Y, x, 1], img[Y, x, 2], img[Y, x, 3];
      res := res + [b, g, r, a];
      x := x + 1;
    }
  }

  /** Pixel `X` of a row occupies bytes `4 * X` to `4 * X + 3`. */
  lemma {:induction false} RowBytesIndex(img: array3<Byte>, Y: int, n: nat)
    requires 0 <= Y < img.Length0 && n <= img.Length1 && img.Length2 == 4
    ensures forall X, j :: 0 <= X < n && 0 <= j < 4 ==> RowBytes(img, Y, n)[4 * X + j] == PixelBgra(img, Y, X)[j]
  {
    if n > 0 {
      RowBytesIndex(img, Y, n - 1);
    }
  }

  lemma {:induction false} StoredRowsLength(img: array3<Byte>, n: nat)
    requires n <= img.Length0 && img.Length2 == 4
    ensures |StoredRows(img, n)| == n * (4 * img.Length1)
  {
    if n > 0 {
      StoredRowsLength(img, n - 1);
      assert (n - 1) * (4 * img.Length1) + 4 * img.Length1 == n * (4 * img.Length1);
    }
  }

  /** Stored row `r` occupies the `r`-th block of `4 * width` bytes. */
  lemma {:induction false} StoredRowsAt(img: array3<Byte>, n: nat, r: int, i: int)
    requires n <= img.Length0 && img.Length2 == 4 && 0 <= r < n && 0 <= i < 4 * img.Length1
    ensures 0 <= r * (4 * img.Length1) + i < |StoredRows(img, n)|
    ensures StoredRows(img, n)[r * (4 * img.Length1) + i] == StoredByte(img, r, i)
  {
    var w := 4 * img.Length1;
    StoredRowsLength(img, n - 1);
    MulMono(0, r, w);
    if r < n - 1 {
      StoredRowsAt(img, n - 1, r, i);
    } else {
      assert r * w == (n - 1) * w;
    }
  }

  ///////////////////////////////////////////////////////////////////////////
  // the round trip

  /** The encoder's DIB passes both header checks and carries the image's width and height. */
  lemma EncodedDecodable(img: array3<Byte>)
    requires ImageShape(img) && img.Length0 >= 1 && img.Length1 >= 1
    ensures Decodable(EncodedDib(img))
    ensures Width(EncodedDib(img)) == img.Length1 && Height(EncodedDib(img)) == img.Length0
    ensures HeaderCheckAsWritten(EncodedDib(img)) == Some(true)
  {
    EncodedHeader(img);
    HeaderOfEncoder(EncodedDib(img), img.Length1, img.Length0);
  }

  lemma EncodedHeader(img: array3<Byte>)
    requires ImageShape(img)
    ensures |EncodedDib(img)| == InfoHeaderSize + img.Length0 * (4 * img.Length1)
    ensures ParseHeader(EncodedDib(img)) == InfoHeader(InfoHeaderSize, img.Length1, img.Length0, 1, 32, BiRgb)
  {
    var d := EncodedDib(img);
    var w, h := img.Length1, img.Length0;
    var tail := d[20..];
    assert d[..20] == Fields(InfoHeaderSize, w, h, 1, 32, BiRgb);
    assert d == d[..20] + tail;
    ParseFields(InfoHeaderSize, w, h, 1, 32, BiRgb, tail);
    StoredRowsLength(img, h);
  }

  /** A DIB with the encoder's header and exactly its pixel bytes passes both checks. */
  lemma HeaderOfEncoder(d: seq<Byte>, w: int, h: int)
    requires 1 <= w < TwoTo31 && 1 <= h < TwoTo31 && |d| >= InfoHeaderSize
    requires |d| == InfoHeaderSize + h * (4 * w) && ParseHeader(d) == InfoHeader(InfoHeaderSize, w, h, 1, 32, BiRgb)
    ensures Decodable(d) && Width(d) == w && Height(d) == h
    ensures HeaderCheckAsWritten(d) == Some(true)
  {
    MulMono(1, h, 4 * w);
    WordStride(w);
    HeaderCheckAgrees(d);
  }

  /** Every byte the decoder converts from the encoder's DIB is the image's own. */
  lemma EncodedPixel(img: array3<Byte>, Y: int, X: int, k: int)
    requires ImageShape(img) && img.Length0 >= 1 && img.Length1 >= 1
    requires 0 <= Y < img.Length0 && 0 <= X < img.Length1 && 0 <= k < 4
    ensures Decodable(EncodedDib(img)) && Width(EncodedDib(img)) == img.Length1 && Height(EncodedDib(img)) == img.Length0
    ensures Converted(EncodedDib(img), Y, X, k) == img[Y, X, k]
  {
    EncodedDecodable(img);
    EncodedHeader(img);
    var w, h := img.Length1, img.Length0;
    var r, j := h - 1 - Y, if k == 3 then 3 else 2 - k;
    var o := InfoHeaderSize + r * (4 * w) + (4 * X + j);
    EncodedByte(img, r, 4 * X + j, o);
    DibPixel(EncodedDib(img), img, Y, X, k, o);
  }

  /** A DIB with the encoder's header whose byte `o` is the stored byte of channel `k` of pixel (`X`, `Y`) decodes it. */
  lemma DibPixel(d: seq<Byte>, img: array3<Byte>, Y: int, X: int, k: int, o: int)
    requires ImageShape(img) && img.Length0 >= 1 && img.Length1 >= 1
    requires 0 <= Y < img.Length0 && 0 <= X < img.Length1 && 0 <= k < 4
    requires |d| == InfoHeaderSize + img.Length0 * (4 * img.Length1)
    requires ParseHeader(d) == InfoHeader(InfoHeaderSize, img.Length1, img.Length0, 1, 32, BiRgb)
    requires Decodable(d) && Width(d) == img.Length1 && Height(d) == img.Length0
    requires o == InfoHeaderSize + (img.Length0 - 1 - Y) * (4 * img.Length1) + (4 * X + (if k == 3 then 3 else 2 - k))
    requires 0 <= o < |d| && d[o] == StoredByte(img, img.Length0 - 1 - Y, 4 * X + (if k == 3 then 3 else 2 - k))
    ensures Converted(d, Y, X, k) == img[Y, X, k]
  {
    var r, j := img.Length0 - 1 - Y, if k == 3 then 3 else 2 - k;
    ConvertedOfEncoder(d, img.Length1, img.Length0, Y, X, k);
    StoredPixel(img, r, X, j);
  }

  /** Byte `j` of pixel `X` in stored row `r` is byte `j` of that pixel in BGRA order. */
  lemma StoredPixel(img: array3<Byte>, r: int, X: int, j: int)
    requires img.Length2 == 4 && 0 <= r < img.Length0 && 0 <= X < img.Length1 && 0 <= j < 4
    ensures StoredByte(img, r, 4 * X + j) == PixelBgra(img, img.Length0 - 1 - r, X)[j]
  {
    RowBytesIndex(img, img.Length0 - 1 - r, img.Length1);
  }

  /** Byte `i` of stored row `r` sits `r` rows of `4 * width` bytes past the header. */
  lemma EncodedByte(img: array3<Byte>, r: int, i: int, o: int)
    requires ImageShape(img) && 0 <= r < img.Length0 && 0 <= i < 4 * img.Length1
    requires o == InfoHeaderSize + r * (4 * img.Length1) + i
    ensures 0 <= o < |EncodedDib(img)| && EncodedDib(img)[o] == StoredByte(img, r, i)
  {
    StoredRowsAt(img, img.Length0, r, i);
  }

  /** Where the decoder finds channel `k` of pixel (`X`, `Y`) in a DIB with the encoder's header. */
  lemma ConvertedOfEncoder(d: seq<Byte>, w: int, h: int, Y: int, X: int, k: int)
    requires 1 <= w < TwoTo31 && 1 <= h < TwoTo31 && |d| >= InfoHeaderSize
    requires |d| == InfoHeaderSize + h * (4 * w) && ParseHeader(d) == InfoHeader(InfoHeaderSize, w, h, 1, 32, BiRgb)
    requires 0 <= Y < h && 0 <= X < w && 0 <= k < 4
    ensures Decodable(d) && Width(d) == w && Height(d) == h
    ensures PixelOffset(d, h - 1 - Y, X) == InfoHeaderSize + (h - 1 - Y) * (4 * w) + 4 * X
    ensures Converted(d, Y, X, k) == d[PixelOffset(d, h - 1 - Y, X) + (if k == 3 then 3 else 2 - k)]
  {
    HeaderOfEncoder(d, w, h);
    WordStride(w);
  }

  /** The image's alpha is zero throughout. */
  ghost predicate ZeroAlpha(img: array3<Byte>)
    requires img.Length2 == 4
    reads img
  {
    forall Y, X :: 0 <= Y < img.Length0 && 0 <= X < img.Length1 ==> img[Y, X, 3] == 0
  }

  /**
   * Copying an image to the clipboard and reading it back gives the same
   * width, height and colours, and the same alpha unless that is zero
   * everywhere, in which case the image comes back opaque.
   */
  lemma RoundTrip(img: array3<Byte>)
    requires ImageShape(img) && img.Length0 >= 1 && img.Length1 >= 1
    ensures Decodable(EncodedDib(img))
    ensures Width(EncodedDib(img)) == img.Length1 && Height(EncodedDib(img)) == img.Length0
    ensures forall Y, X, k :: 0 <= Y < img.Length0 && 0 <= X < img.Length1 && 0 <= k < 4 ==>
      Decoded(EncodedDib(img), Y, X, k) == if k == 3 && ZeroAlpha(img) then 0xFF else img[Y, X, k]
  {
    EncodedDecodable(img);
    var d := EncodedDib(img);
    forall Y, X, k | 0 <= Y < img.Length0 && 0 <= X < img.Length1 && 0 <= k < 4
      ensures Converted(d, Y, X, k) == img[Y, X, k]
    {
      EncodedPixel(img, Y, X, k);
    }
    assert AllAlphaZero(d) <==> ZeroAlpha(img);
  }

  /** As written, the round trip keeps the colours but always comes back opaque. */
  lemma RoundTripAsWritten(img: array3<Byte>)
    requires ImageShape(img) && img.Length0 >= 1 && img.Length1 >= 1
    ensures Decodable(EncodedDib(img))
    ensures Width(EncodedDib(img)) == img.Length1 && Height(EncodedDib(img)) == img.Length0
    ensures forall Y, X, k :: 0 <= Y < img.Length0 && 0 <= X < img.Length1 && 0 <= k < 4 ==>
      DecodedAsWritten(EncodedDib(img), Y, X, k) == if k == 3 then 0xFF else img[Y, X, k]
  {
    EncodedDecodable(img);
    forall Y, X, k | 0 <= Y < img.Length0 && 0 <= X < img.Length1 && 0 <= k < 3
      ensures Converted(EncodedDib(img), Y, X, k) == img[Y, X, k]
    {
      EncodedPixel(img, Y, X, k);
    }
  }
}
