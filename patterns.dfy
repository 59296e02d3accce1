/**
 * The procedural test patterns of src/patterns.cpp that use integer
 * arithmetic only: the xorshift128 generator, the "XOR" pattern and the
 * "Clouds" midpoint-displacement pattern.
 *
 * An RGBA byte buffer of `width * height` pixels is an `array3<Byte>`
 * indexed `[row, column, channel]`: exactly the row-major layout the
 * patterns write through their byte pointer.
 */
module Patterns {

  newtype Byte = b: int | 0 <= b < 256

  /** `uint8_t(v)`: the low byte of an integer. */
  function Low(v: int): Byte {
    (v % 256) as Byte
  }

  ///////////////////////////////////////////////////////////////////////////
  // the generator

  /** The four words of a xorshift128 generator. */
  datatype PrngState = PrngState(x: bv32, y: bv32, z: bv32, w: bv32)

  const Zero := PrngState(0, 0, 0, 0)

  /** The state `PRNG(seed)` starts in (all arithmetic modulo 2^32). */
  function Seeded(seed: bv32): PrngState {
    var y := 0xAFFE_D00F - seed;
    PrngState(0x1337_5EED ^ seed, y, 0xDEAD_BEEF + seed, (0x0815_4711 * (seed & 1)) ^ y)
  }

  /** The xorshift128 step of `getU32`; the new `w` is the number drawn. */
  function Next(s: PrngState): PrngState {
    var t := s.x ^ (s.x << 11);
    PrngState(s.y, s.z, s.w, s.w ^ (s.w >> 19) ^ t ^ (t >> 8))
  }

  /** No seed starts the generator in the all-zero state. */
  lemma SeededNonZero(seed: bv32)
    ensures Seeded(seed) != Zero
  {
  }

  /** `x ^ (x << 11)` keeps the lowest set bit of a non-zero `x`. */
  lemma FirstMixNonZero(x: bv32)
    requires x != 0
    ensures x ^ (x << 11) != 0
  {
  }

  /** With `w` zero, the new word is `t ^ (t >> 8)`, which keeps the highest set bit of a non-zero `t`. */
  lemma LastMixNonZero(w: bv32, t: bv32)
    requires w == 0 && t != 0
    ensures w ^ (w >> 19) ^ t ^ (t >> 8) != 0
  {
  }

  /** The all-zero state is the step's fixed point. */
  lemma NextZero()
    ensures Next(Zero) == Zero
  {
  }

  /** The step never enters the all-zero state from any other state. */
  lemma NextNonZero(s: PrngState)
    requires s != Zero
    ensures Next(s) != Zero
  {
    if s.y == 0 && s.z == 0 && s.w == 0 {
      FirstMixNonZero(s.x);
      LastMixNonZero(s.w, s.x ^ (s.x << 11));
    } else {
      assert Next(s).x == s.y && Next(s).y == s.z && Next(s).z == s.w;
    }
  }

  /** The state after `n` calls of `getU32`. */
  function Steps(s: PrngState, n: nat): PrngState {
    if n == 0 then s else Next(Steps(s, n - 1))
  }

  /** However many numbers are drawn, a seeded generator never falls into the all-zero state. */
  lemma {:induction false} SeededNeverZero(seed: bv32, n: nat)
    ensures Steps(Seeded(seed), n) != Zero
  {
    if n == 0 {
      SeededNonZero(seed);
    } else {
      SeededNeverZero(seed, n - 1);
      NextNonZero(Steps(Seeded(seed), n - 1));
    }
  }

  /** The value `getRange(lo, hi)` derives from a drawn number `u`. */
  function RangeValue(lo: int, hi: int, u: bv32): (r: int)
    requires lo <= hi
    ensures lo <= r <= hi
  {
    lo + (u as int) % (hi - lo + 1)
  }

  predicate IsInt32(v: int) {
    -0x8000_0000 <= v < 0x8000_0000
  }

  /** `PRNG`: xorshift128. */
  class Prng {
    var x: bv32
    var y: bv32
    var z: bv32
    var w: bv32

    function State(): PrngState
      reads this
    {
      PrngState(x, y, z, w)
    }

    constructor (seed: bv32)
      ensures State() == Seeded(seed)
    {
      var y0 := 0xAFFE_D00F - seed;
      x := 0x1337_5EED ^ seed;
      y := y0;
      z := 0xDEAD_BEEF + seed;
      w := (0x0815_4711 * (seed & 1)) ^ y0;
    }

    /** `getU32`: one step; the new `w` is the result. */
    method GetU32() returns (r: bv32)
      modifies this
      ensures State() == Next(old(State())) && r == w
    {
      var s := Next(State());
      x, y, z, w := s.x, s.y, s.z, s.w;
      r := s.w;
    }

    /**
     * The integer `getRange(from, to)`: the bounds are swapped if reversed,
     * and the width `to - from + 1` must be a positive `int`.
     */
    method GetRange(from: int, to: int) returns (r: int)
      requires IsInt32(from) && IsInt32(to)
      requires from <= to ==> to - from < 0x7FFF_FFFF
      requires to < from ==> from - to < 0x7FFF_FFFF
      modifies this
      ensures State() == Next(old(State()))
      ensures from <= to ==> r == RangeValue(from, to, w)
      ensures to < from ==> r == RangeValue(to, from, w)
      ensures (from <= to ==> from <= r <= to) && (to < from ==> to <= r <= from)
    {
      var lo, hi := from, to;
      if lo > hi {
        lo, hi := hi, lo;
      }
      var u := GetU32();
      r := lo + (u as int) % (hi - lo + 1);
    }
  }

  ///////////////////////////////////////////////////////////////////////////
  // "XOR"

  function Xor(a: Byte, b: Byte): Byte {
    ((a as bv8) ^ (b as bv8)) as Byte
  }

  /**
   * Channel `k` of pixel (x, y) of the XOR pattern. The low byte of `x ^ y`
   * is the XOR of the low bytes.
   */
  function XorChannel(x: int, y: int, k: int, alpha: bool): Byte {
    if k == 0 then Xor(Low(x), 255)
    else if k == 1 then Xor(Low(x), Low(y))
    else if k == 2 then Low(y)
    else if alpha then Low(x - y)
    else 255
  }

  /** The XOR pattern: every byte of the buffer, row by row. */
  method XorPattern(img: array3<Byte>, alpha: bool)
    requires img.Length2 == 4
    modifies img
    ensures forall y, x, k :: 0 <= y < img.Length0 && 0 <= x < img.Length1 && 0 <= k < 4 ==>
      img[y, x, k] == XorChannel(x, y, k, alpha)
  {
    var height, width := img.Length0, img.Length1;
    for y := 0 to height
      invariant forall y', x, k :: 0 <= y' < y && 0 <= x < width && 0 <= k < 4 ==>
        img[y', x, k] == XorChannel(x, y', k, alpha)
    {
      for x := 0 to width
        invariant forall y', x', k :: 0 <= y' < y && 0 <= x' < width && 0 <= k < 4 ==>
          img[y', x', k] == XorChannel(x', y', k, alpha)
        invariant forall x', k :: 0 <= x' < x && 0 <= k < 4 ==> img[y, x', k] == XorChannel(x', y, k, alpha)
      {
        img[y, x, 0] := Xor(Low(x), 255);
        img[y, x, 1] := Xor(Low(x), Low(y));
        img[y, x, 2] := Low(y);
        img[y, x, 3] := if alpha then Low(x - y) else 255;
      }
    }
  }

  ///////////////////////////////////////////////////////////////////////////
  // "Clouds"

  /** The noise amplitude of the next level, `(n >> 1) | 1`. */
  function NextNoise(n: int): (r: int)
    requires n >= 1
    ensures r % 2 == 1 && 1 <= r <= n
  {
    var h := n / 2;
    if h % 2 == 0 then h + 1 else h
  }

  /** The rectangle of corners (x0, y0) and (x0 + w, y0 + h), edges included. */
  predicate InRect(X: int, Y: int, x0: int, y0: int, w: int, h: int) {
    x0 <= X <= x0 + w && y0 <= Y <= y0 + h
  }

  /**
   * `recurse` as written stops at a rectangle of width or height 0, so a
   * one-pixel-wide or one-pixel-high image keeps its inner pixels at 0;
   * the corrected reading stops only at rectangles of at most 2 x 2 pixels.
   */
  datatype Reading = AsWritten | Corrected

  /** `recurse` stops at once for these sizes. */
  predicate Stops(rd: Reading, w: int, h: int) {
    (rd == AsWritten && (w < 1 || h < 1)) || (w < 2 && h < 2)
  }

  /** The sizes whose every pixel ends up generated from nonzero corners. */
  predicate Fills(rd: Reading, w: int, h: int) {
    rd == Corrected || (1 <= w && 1 <= h) || (w <= 1 && h <= 1)
  }

  predicate InImage(img: array3<Byte>, Y: int, X: int, k: int) {
    0 <= Y < img.Length0 && 0 <= X < img.Length1 && 0 <= k < img.Length2
  }

  /**
   * Between the two states only channel `c` of the rectangle changed, and
   * only to nonzero values: nonzero bytes stay nonzero.
   */
  twostate predicate Painted(img: array3<Byte>, c: int, x0: int, y0: int, w: int, h: int)
    reads img
  {
    forall Y, X, k {:trigger img[Y, X, k]} :: InImage(img, Y, X, k) ==>
      img[Y, X, k] == old(img[Y, X, k]) || (k == c && InRect(X, Y, x0, y0, w, h) && img[Y, X, k] != 0)
  }

  /** The rectangle lies inside the image. */
  predicate InBounds(img: array3<Byte>, x0: int, y0: int, w: int, h: int) {
    0 <= x0 && 0 <= y0 && 0 <= w && 0 <= h && x0 + w < img.Length1 && y0 + h < img.Length0
  }

  predicate CornersSet(img: array3<Byte>, c: int, x0: int, y0: int, w: int, h: int)
    requires 0 <= c < img.Length2 && InBounds(img, x0, y0, w, h)
    reads img
  {
    img[y0, x0, c] != 0 && img[y0, x0 + w, c] != 0 && img[y0 + h, x0, c] != 0 && img[y0 + h, x0 + w, c] != 0
  }

  /** Every byte of channel `c` in the rectangle is nonzero. */
  ghost predicate Filled(img: array3<Byte>, c: int, x0: int, y0: int, w: int, h: int)
    reads img
  {
    forall Y, X {:trigger img[Y, X, c]} :: InImage(img, Y, X, c) && InRect(X, Y, x0, y0, w, h) ==> img[Y, X, c] != 0
  }

  /**
   * The rectangles `recurse` stops at are filled as soon as their corners
   * are: every pixel of them is a corner.
   */
  lemma CornersFill(img: array3<Byte>, c: int, x0: int, y0: int, w: int, h: int)
    requires 0 <= c < img.Length2 && 0 <= x0 && 0 <= y0 && 0 <= w <= 1 && 0 <= h <= 1
    requires x0 + w < img.Length1 && y0 + h < img.Length0
    requires CornersSet(img, c, x0, y0, w, h)
    ensures Filled(img, c, x0, y0, w, h)
  {
    forall Y, X | InImage(img, Y, X, c) && InRect(X, Y, x0, y0, w, h)
      ensures img[Y, X, c] != 0
    {
      assert X == x0 || X == x0 + w;
      assert Y == y0 || Y == y0 + h;
    }
  }

  /**
   * A rectangle `recurse` splits at (x, y) is filled once its quadrants
   * that are themselves filled from their corners are: when x is 0 the
   * zero-width quadrants lie inside their right-hand neighbours, and
   * likewise when y is 0.
   */
  lemma FilledByQuadrants(rd: Reading, img: array3<Byte>, c: int, x0: int, y0: int, w: int, h: int, x: int, y: int)
    requires 0 <= w && 0 <= h && !Stops(rd, w, h) && x == w / 2 && y == h / 2
    requires
      && (Fills(rd, x, y) ==> Filled(img, c, x0, y0, x, y))
      && (Fills(rd, w - x, y) ==> Filled(img, c, x0 + x, y0, w - x, y))
      && (Fills(rd, x, h - y) ==> Filled(img, c, x0, y0 + y, x, h - y))
      && (Fills(rd, w - x, h - y) ==> Filled(img, c, x0 + x, y0 + y, w - x, h - y))
    ensures Filled(img, c, x0, y0, w, h)
  {
    forall Y, X | InImage(img, Y, X, c) && InRect(X, Y, x0, y0, w, h)
      ensures img[Y, X, c] != 0
    {
      if X < x0 + x || (X == x0 + x && x > 0) {
        if Y <= y0 + y && y > 0 {
          assert InRect(X, Y, x0, y0, x, y);
        } else {
          assert InRect(X, Y, x0, y0 + y, x, h - y);
        }
      } else {
        if Y <= y0 + y && y > 0 {
          assert InRect(X, Y, x0 + x, y0, w - x, y);
        } else {
          assert InRect(X, Y, x0 + x, y0 + y, w - x, h - y);
        }
      }
    }
  }

  /**
   * The nine points of the grid `recurse` splits a rectangle by are
   * nonzero: the corners of its four quadrants.
   */
  predicate GridSet(img: array3<Byte>, c: int, x0: int, y0: int, w: int, h: int)
    requires 0 <= c < img.Length2 && 0 <= x0 && 0 <= y0 && 0 <= w && 0 <= h
    requires x0 + w < img.Length1 && y0 + h < img.Length0
    reads img
  {
    var x, y := w / 2, h / 2;
    && CornersSet(img, c, x0, y0, w, h)
    && img[y0, x0 + x, c] != 0 && img[y0 + h, x0 + x, c] != 0
    && img[y0 + y, x0, c] != 0 && img[y0 + y, x0 + w, c] != 0
    && img[y0 + y, x0 + x, c] != 0
  }

  /** The nine grid points are the corners of the four quadrants. */
  lemma GridCorners(img: array3<Byte>, c: int, x0: int, y0: int, w: int, h: int, x: int, y: int)
    requires 0 <= c < img.Length2 && 0 <= x0 && 0 <= y0 && 0 <= w && 0 <= h
    requires x0 + w < img.Length1 && y0 + h < img.Length0 && x == w / 2 && y == h / 2
    requires GridSet(img, c, x0, y0, w, h)
    ensures CornersSet(img, c, x0, y0, x, y) && CornersSet(img, c, x0 + x, y0, w - x, y)
    ensures CornersSet(img, c, x0, y0 + y, x, h - y) && CornersSet(img, c, x0 + x, y0 + y, w - x, h - y)
  {
  }

  class Recursion {
    const rng: Prng
    const reading: Reading

    /** The generator of `Recursion`, seeded with 42. */
    constructor (rd: Reading)
      ensures fresh(rng) && rng.State() == Seeded(42) && reading == rd
    {
      rng := new Prng(42);
      reading := rd;
    }

    /** `addNoise`: a random value within `n` of `v`, clamped to 1..255. */
    method AddNoise(v: int, n: int) returns (r: Byte)
      requires 0 <= v < 256 && 1 <= n < 0x1000_0000
      modifies rng
      ensures r != 0
      ensures (if v - n > 1 then v - n else 1) <= r as int <= (if v + n < 255 then v + n else 255)
    {
      var lo := if 1 > v - n then 1 else v - n;
      var hi := if 255 < v + n then 255 else v + n;
      var g := rng.GetRange(lo, hi);
      r := g as Byte;
    }

    /** `genpix`: the pixel at (X, Y), generated from the mean of `a` and `b` if it is still 0. */
    method GenPix(img: array3<Byte>, c: int, X: int, Y: int, a: Byte, b: Byte, n: int) returns (v: Byte)
      requires InImage(img, Y, X, c) && 1 <= n < 0x1000_0000
      modifies img, rng
      ensures v != 0 && img[Y, X, c] == v
      ensures old(img[Y, X, c]) != 0 ==> v == old(img[Y, X, c])
      ensures Painted(img, c, X, Y, 0, 0)
    {
      v := img[Y, X, c];
      if v == 0 {
        v := AddNoise((a as int + b as int) / 2, n);
        img[Y, X, c] := v;
      }
    }

    /**
     * `recurse` on channel `c` of the rectangle with corners (x0, y0) and
     * (x0 + w, y0 + h): generate the edge midpoints that are still 0 and
     * the centre, then recurse on the four quadrants with less noise.
     */
    method Recurse(img: array3<Byte>, c: int, x0: int, y0: int, w: int, h: int, n: int)
      requires img.Length2 == 4 && 0 <= c < 4
      requires 0 <= x0 && 0 <= y0 && 0 <= w && 0 <= h
      requires x0 + w < img.Length1 && y0 + h < img.Length0
      requires 1 <= n < 0x1000_0000
      modifies img, rng
      decreases w + h, 3
      ensures Painted(img, c, x0, y0, w, h)
      ensures Stops(reading, w, h) ==> unchanged(img)
      ensures old(CornersSet(img, c, x0, y0, w, h)) && Fills(reading, w, h) ==> Filled(img, c, x0, y0, w, h)
    {
      if reading == AsWritten && (w < 1 || h < 1) {
        return;
      }
      if w < 2 && h < 2 {
        if CornersSet(img, c, x0, y0, w, h) {
          CornersFill(img, c, x0, y0, w, h);
        }
        return;
      }
      Split(img, c, x0, y0, w, h, n);
    }

    /** What `recurse` does with a rectangle it does not stop at. */
    method Split(img: array3<Byte>, c: int, x0: int, y0: int, w: int, h: int, n: int)
      requires img.Length2 == 4 && 0 <= c < 4
      requires 0 <= x0 && 0 <= y0 && 0 <= w && 0 <= h && !Stops(reading, w, h)
      requires x0 + w < img.Length1 && y0 + h < img.Length0
      requires 1 <= n < 0x1000_0000
      modifies img, rng
      decreases w + h, 2
      ensures Painted(img, c, x0, y0, w, h)
      ensures old(CornersSet(img, c, x0, y0, w, h)) ==> Filled(img, c, x0, y0, w, h)
    {
      Edges(img, c, x0, y0, w, h, n);
      var m := NextNoise(n);
      Subdivide(img, c, x0, y0, w, h, m);
    }

    /** The four recursive calls of `recurse`, on the quadrants split at the midpoints. */
    method Subdivide(img: array3<Byte>, c: int, x0: int, y0: int, w: int, h: int, n: int)
      requires img.Length2 == 4 && 0 <= c < 4
      requires 0 <= x0 && 0 <= y0 && 0 <= w && 0 <= h && !Stops(reading, w, h)
      requires x0 + w < img.Length1 && y0 + h < img.Length0
      requires 1 <= n < 0x1000_0000
      modifies img, rng
      decreases w + h, 1
      ensures Painted(img, c, x0, y0, w, h)
      ensures old(GridSet(img, c, x0, y0, w, h)) ==> Filled(img, c, x0, y0, w, h)
    {
      var x, y := w / 2, h / 2;
      ghost var grid := GridSet(img, c, x0, y0, w, h);
      if grid {
        GridCorners(img, c, x0, y0, w, h, x, y);
      }
      TopQuadrants(img, c, x0, y0, w, h, n);
      BottomQuadrants(img, c, x0, y0, w, h, n);
      if grid {
        FilledByQuadrants(reading, img, c, x0, y0, w, h, x, y);
      }
    }

    /** The midpoint and centre generation of `recurse`, on a rectangle it does not stop at. */
    method Edges(img: array3<Byte>, c: int, x0: int, y0: int, w: int, h: int, n: int)
      requires img.Length2 == 4 && 0 <= c < 4
      requires 0 <= x0 && 0 <= y0 && 0 <= w && 0 <= h && !Stops(reading, w, h)
      requires x0 + w < img.Length1 && y0 + h < img.Length0
      requires 1 <= n < 0x1000_0000
      modifies img, rng
      ensures Painted(img, c, x0, y0, w, h)
      ensures old(CornersSet(img, c, x0, y0, w, h)) ==> GridSet(img, c, x0, y0, w, h)
    {
      var c00, c20 := img[y0, x0, c], img[y0, x0 + w, c];
      var c02, c22 := img[y0 + h, x0, c], img[y0 + h, x0 + w, c];
      var x, y := w / 2, h / 2;
      ghost var corners := CornersSet(img, c, x0, y0, w, h);
      var c10, c12, c01, c21 := 0, 0, 0, 0;
      label start:
      if x > 0 {
        c10, c12 := MidPair(img, c, x0, y0, w, h, x0 + x, y0, c00, c20, x0 + x, y0 + h, c02, c22, n);
      }
      label across:
      if y > 0 {
        c01, c21 := MidPair(img, c, x0, y0, w, h, x0, y0 + y, c00, c02, x0 + w, y0 + y, c20, c22, n);
      }
      label down:
      if x > 0 && y > 0 {
        var v := AddNoise((c10 as int + c12 as int + c01 as int + c21 as int + 2) / 4, n);
        img[y0 + y, x0 + x, c] := v;
      }
      if corners {
        assert x > 0 ==> old@across(img[y0, x0 + x, c]) != 0 && old@across(img[y0 + h, x0 + x, c]) != 0;
        assert y > 0 ==> old@down(img[y0 + y, x0, c]) != 0 && old@down(img[y0 + y, x0 + w, c]) != 0;
      }
    }

    /** Two `genpix` of `recurse`, at (Xa, Ya) and (Xb, Yb) inside the rectangle. */
    method MidPair(img: array3<Byte>, c: int, x0: int, y0: int, w: int, h: int,
                   Xa: int, Ya: int, a1: Byte, a2: Byte, Xb: int, Yb: int, b1: Byte, b2: Byte, n: int)
      returns (va: Byte, vb: Byte)
      requires 0 <= c < img.Length2 && 1 <= n < 0x1000_0000
      requires InRect(Xa, Ya, x0, y0, w, h) && InRect(Xb, Yb, x0, y0, w, h)
      requires InImage(img, Ya, Xa, c) && InImage(img, Yb, Xb, c)
      modifies img, rng
      ensures Painted(img, c, x0, y0, w, h)
      ensures va != 0 && vb != 0 && img[Ya, Xa, c] == va && img[Yb, Xb, c] == vb
    {
      va := GenPix(img, c, Xa, Ya, a1, a2, n);
      vb := GenPix(img, c, Xb, Yb, b1, b2, n);
    }

    /**
     * One recursive call of `recurse`, together with the fact that it
     * keeps every filled rectangle of channel `c` filled.
     */
    method Quadrant(img: array3<Byte>, c: int, x0: int, y0: int, w: int, h: int, n: int)
      requires img.Length2 == 4 && 0 <= c < 4
      requires 0 <= x0 && 0 <= y0 && 0 <= w && 0 <= h
      requires x0 + w < img.Length1 && y0 + h < img.Length0
      requires 1 <= n < 0x1000_0000
      modifies img, rng
      decreases w + h, 4
      ensures Painted(img, c, x0, y0, w, h)
      ensures old(CornersSet(img, c, x0, y0, w, h)) && Fills(reading, w, h) ==> Filled(img, c, x0, y0, w, h)
      ensures forall x1, y1, w1, h1 {:trigger Filled(img, c, x1, y1, w1, h1)} ::
        old(Filled(img, c, x1, y1, w1, h1)) ==> Filled(img, c, x1, y1, w1, h1)
      ensures forall x1, y1, w1, h1 {:trigger CornersSet(img, c, x1, y1, w1, h1)} ::
        InBounds(img, x1, y1, w1, h1) && old(CornersSet(img, c, x1, y1, w1, h1)) ==> CornersSet(img, c, x1, y1, w1, h1)
    {
      Recurse(img, c, x0, y0, w, h, n);
      forall x1, y1, w1, h1 | old(Filled(img, c, x1, y1, w1, h1))
        ensures Filled(img, c, x1, y1, w1, h1)
      {
      }
    }

    /** The four corner writes of the driver loop, each `uint8_t(getU32()) | 1`. */
    method SetCorners(img: array3<Byte>, c: int)
      requires img.Length0 >= 1 && img.Length1 >= 1 && img.Length2 == 4 && 0 <= c < 4
      modifies img, rng
      ensures CornersSet(img, c, 0, 0, img.Length1 - 1, img.Length0 - 1)
      ensures forall Y, X, k {:trigger img[Y, X, k]} :: InImage(img, Y, X, k) ==>
        img[Y, X, k] == old(img[Y, X, k]) ||
        (k == c && (Y == 0 || Y == img.Length0 - 1) && (X == 0 || X == img.Length1 - 1) && img[Y, X, k] != 0)
    {
      var height, width := img.Length0, img.Length1;
      SeedPixel(img, c, 0, 0);
      SeedPixel(img, c, 0, width - 1);
      SeedPixel(img, c, height - 1, 0);
      SeedPixel(img, c, height - 1, width - 1);
    }

    /** `pixel(data, X, Y) = uint8_t(r.getU32()) | 1` in channel `c`. */
    method SeedPixel(img: array3<Byte>, c: int, Y: int, X: int)
      requires InImage(img, Y, X, c)
      modifies img, rng
      ensures img[Y, X, c] % 2 == 1
      ensures forall Y', X', k {:trigger img[Y', X', k]} :: InImage(img, Y', X', k) && !(k == c && Y' == Y && X' == X) ==>
        img[Y', X', k] == old(img[Y', X', k])
    {
      var u := rng.GetU32();
      img[Y, X, c] := Corner(u);
    }

    /**
     * One pass of the driver loop: odd random bytes in the four corners of
     * channel `c`, then `recurse` over the whole image.
     */
    method SeedChannel(img: array3<Byte>, c: int)
      requires img.Length0 >= 1 && img.Length1 >= 1 && img.Length2 == 4 && 0 <= c < 4
      modifies img, rng
      ensures Painted(img, c, 0, 0, img.Length1 - 1, img.Length0 - 1)
      ensures Fills(reading, img.Length1 - 1, img.Length0 - 1) ==> Filled(img, c, 0, 0, img.Length1 - 1, img.Length0 - 1)
      ensures reading == AsWritten && img.Length1 == 1 ==>
        forall Y :: 0 < Y < img.Length0 - 1 ==> img[Y, 0, c] == old(img[Y, 0, c])
      ensures reading == AsWritten && img.Length0 == 1 ==>
        forall X :: 0 < X < img.Length1 - 1 ==> img[0, X, c] == old(img[0, X, c])
    {
      SetCorners(img, c);
      label seeded:
      Recurse(img, c, 0, 0, img.Length1 - 1, img.Length0 - 1, 63);
      assert Painted@seeded(img, c, 0, 0, img.Length1 - 1, img.Length0 - 1);
    }

    method TopQuadrants(img: array3<Byte>, c: int, x0: int, y0: int, w: int, h: int, n: int)
      requires img.Length2 == 4 && 0 <= c < 4
      requires 0 <= x0 && 0 <= y0 && 0 <= w && 0 <= h && !Stops(reading, w, h)
      requires x0 + w < img.Length1 && y0 + h < img.Length0
      requires 1 <= n < 0x1000_0000
      modifies img, rng
      decreases w + h, 0
      ensures Painted(img, c, x0, y0, w, h)
      ensures var x, y := w / 2, h / 2;
        && (old(CornersSet(img, c, x0, y0, x, y)) && Fills(reading, x, y) ==> Filled(img, c, x0, y0, x, y))
        && (old(CornersSet(img, c, x0 + x, y0, w - x, y)) && Fills(reading, w - x, y) ==> Filled(img, c, x0 + x, y0, w - x, y))
        && (old(CornersSet(img, c, x0, y0 + y, x, h - y)) ==> CornersSet(img, c, x0, y0 + y, x, h - y))
        && (old(CornersSet(img, c, x0 + x, y0 + y, w - x, h - y)) ==> CornersSet(img, c, x0 + x, y0 + y, w - x, h - y))
    {
      var x, y := w / 2, h / 2;
      Quadrant(img, c, x0, y0, x, y, n);
      Quadrant(img, c, x0 + x, y0, w - x, y, n);
    }

    /** The last two recursive calls of `recurse`: the bottom-left and bottom-right quadrants. */
    method BottomQuadrants(img: array3<Byte>, c: int, x0: int, y0: int, w: int, h: int, n: int)
      requires img.Length2 == 4 && 0 <= c < 4
      requires 0 <= x0 && 0 <= y0 && 0 <= w && 0 <= h && !Stops(reading, w, h)
      requires x0 + w < img.Length1 && y0 + h < img.Length0
      requires 1 <= n < 0x1000_0000
      modifies img, rng
      decreases w + h, 0
      ensures Painted(img, c, x0, y0, w, h)
      ensures var x, y := w / 2, h / 2;
        && (old(Filled(img, c, x0, y0, x, y)) ==> Filled(img, c, x0, y0, x, y))
        && (old(Filled(img, c, x0 + x, y0, w - x, y)) ==> Filled(img, c, x0 + x, y0, w - x, y))
        && (old(CornersSet(img, c, x0, y0 + y, x, h - y)) && Fills(reading, x, h - y) ==> Filled(img, c, x0, y0 + y, x, h - y))
        && (old(CornersSet(img, c, x0 + x, y0 + y, w - x, h - y)) && Fills(reading, w - x, h - y) ==>
              Filled(img, c, x0 + x, y0 + y, w - x, h - y))
    {
      var x, y := w / 2, h / 2;
      Quadrant(img, c, x0, y0 + y, x, h - y, n);
      Quadrant(img, c, x0 + x, y0 + y, w - x, h - y, n);
    }
  }

  /**
   * The "Clouds" pattern: clear the buffer, then for each colour channel
   * (and alpha if asked for) seed the four image corners with odd random
   * bytes and fill the image by recursive midpoint displacement.  As
   * written, an image one pixel wide or one pixel high keeps its inner
   * pixels at 0; with the corrected `recurse` every used channel of every
   * pixel is nonzero.
   */
  method Clouds(img: array3<Byte>, alpha: bool, rd: Reading)
    requires img.Length0 >= 1 && img.Length1 >= 1 && img.Length2 == 4
    modifies img
    ensures var nc := if alpha then 4 else 3;
      forall Y, X, k :: InImage(img, Y, X, k) && k >= nc ==> img[Y, X, k] == 0
    ensures var nc := if alpha then 4 else 3;
      Fills(rd, img.Length1 - 1, img.Length0 - 1) ==>
        forall Y, X, k :: InImage(img, Y, X, k) && k < nc ==> img[Y, X, k] != 0
    ensures var nc := if alpha then 4 else 3;
      rd == Corrected ==> forall Y, X, k :: InImage(img, Y, X, k) && k < nc ==> img[Y, X, k] != 0
    ensures var nc := if alpha then 4 else 3;
      rd == AsWritten && img.Length1 == 1 ==>
        forall Y, k :: 0 < Y < img.Length0 - 1 && 0 <= k < nc ==> img[Y, 0, k] == 0
    ensures var nc := if alpha then 4 else 3;
      rd == AsWritten && img.Length0 == 1 ==>
        forall X, k :: 0 < X < img.Length1 - 1 && 0 <= k < nc ==> img[0, X, k] == 0
  {
    var height, width := img.Length0, img.Length1;
    forall Y, X, k | 0 <= Y < height && 0 <= X < width && 0 <= k < 4 {
      img[Y, X, k] := 0;
    }
    var r := new Recursion(rd);
    var nc := if alpha then 4 else 3;
    for k := 0 to nc
      invariant forall Y, X, k' :: InImage(img, Y, X, k') && k' >= k ==> img[Y, X, k'] == 0
      invariant Fills(rd, width - 1, height - 1) ==>
        forall Y, X, k' :: InImage(img, Y, X, k') && k' < k ==> img[Y, X, k'] != 0
      invariant rd == AsWritten && width == 1 ==>
        forall Y, k' :: 0 < Y < height - 1 && 0 <= k' < k ==> img[Y, 0, k'] == 0
      invariant rd == AsWritten && height == 1 ==>
        forall X, k' :: 0 < X < width - 1 && 0 <= k' < k ==> img[0, X, k'] == 0
    {
      r.SeedChannel(img, k);
    }
  }

  /** `uint8_t(getU32()) | 1`: an odd, hence nonzero, byte. */
  function Corner(u: bv32): (b: Byte)
    ensures b % 2 == 1
  {
    (((u & 0xFF) | 1) as int) as Byte
  }
}
