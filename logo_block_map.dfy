/**
 * `CompressBlockMap` of logo/logoconv.py, the tile-map compressor the
 * driver no longer calls: the image is cut into square blocks, identical
 * blocks (up to a horizontal and/or vertical flip) share one bitmap, similar
 * bitmaps are merged, the bitmaps in use are renumbered densely, and the
 * image is re-synthesised from the name table.
 *
 * A block is a flat sequence of `size * size` pixels, row by row; a name
 * table entry is a bitmap number and a flip code (bit 0 horizontal, bit 1
 * vertical).
 */
module LogoBlockMap {
  import opened StringUtil
  import opened LogoConv

  type Block = seq<int>

  /** A name table entry, `(n, r)` in the source. */
  datatype Key = Key(id: int, flip: int)

  // ---------------------------------------------------------------------
  // Cells of a block
  // ---------------------------------------------------------------------

  /** a * c <= b * c for a <= b and c >= 0. */
  lemma MulLe(a: int, b: int, c: int)
    requires a <= b && c >= 0
    ensures a * c <= b * c
  {
    assert b * c - a * c == (b - a) * c;
  }

  /** Cell (y, x) of a grid `cols` wide and `rows` high lies inside its `rows * cols` cells. */
  lemma CellIn(y: int, x: int, cols: int, rows: int)
    requires 0 <= y < rows && 0 <= x < cols
    ensures 0 <= y * cols + x < rows * cols
  {
    MulLe(0, y, cols);
    MulLe(y, rows - 1, cols);
  }

  /** Cell `i` of a `size`-wide block is in one of its `size` rows. */
  lemma DivBound(i: int, size: int)
    requires 0 <= size && 0 <= i < size * size
    ensures size > 0 && 0 <= i / size < size
  {
    var y := i / size;
    assert y * size + i % size == i;
    if y >= size {
      MulLe(size, y, size);
      assert false;
    }
  }

  /** The row of cell `i` of a `size`-wide block. */
  function Row(i: int, size: int): (y: int)
    requires 0 <= size && 0 <= i < size * size
    ensures 0 <= y < size
  {
    DivBound(i, size);
    i / size
  }

  /** The column of cell `i` of a `size`-wide block. */
  function Col(i: int, size: int): (x: int)
    requires 0 <= size && 0 <= i < size * size
    ensures 0 <= x < size
  {
    i % size
  }

  /** Cell `i` is at its row and column. */
  lemma CellOf(i: int, size: int)
    requires 0 <= size && 0 <= i < size * size
    ensures Row(i, size) * size + Col(i, size) == i
  {
    DivBound(i, size);
  }

  /** Cell `y * cols + x` of a row-major grid is in row `y`, column `x`. */
  lemma DivModOf(y: int, x: int, cols: int)
    requires 0 <= y && 0 <= x < cols
    ensures (y * cols + x) / cols == y && (y * cols + x) % cols == x
  {
    var i := y * cols + x;
    var q, r := i / cols, i % cols;
    assert q * cols + r == i;
    if q > y {
      MulLe(y + 1, q, cols);
      assert false;
    } else if q < y {
      MulLe(q + 1, y, cols);
      assert false;
    }
  }

  /** The row and column of the cell at (y, x). */
  lemma RowColOf(y: int, x: int, size: int)
    requires 0 <= y < size && 0 <= x < size
    ensures 0 <= y * size + x < size * size
    ensures Row(y * size + x, size) == y && Col(y * size + x, size) == x
  {
    CellIn(y, x, size, size);
    DivModOf(y, x, size);
  }

  /** Pixel (y, x) of a block. */
  function Px(b: Block, size: int, y: int, x: int): int
    requires 0 <= y < size && 0 <= x < size && |b| == size * size
  {
    RowColOf(y, x, size);
    b[y * size + x]
  }

  /** Two blocks agreeing at every pixel are equal. */
  lemma BlockExt(a: Block, b: Block, size: int)
    requires 0 <= size && |a| == size * size && |b| == size * size
    requires forall y, x :: 0 <= y < size && 0 <= x < size ==> Px(a, size, y, x) == Px(b, size, y, x)
    ensures a == b
  {
    forall i | 0 <= i < size * size
      ensures a[i] == b[i]
    {
      CellOf(i, size);
      assert Px(a, size, Row(i, size), Col(i, size)) == Px(b, size, Row(i, size), Col(i, size));
    }
  }

  // ---------------------------------------------------------------------
  // Flips
  // ---------------------------------------------------------------------

  /** `_hflip`: every row reversed. */
  function HFlip(b: Block, size: int): (r: Block)
    requires 0 <= size && |b| == size * size
    ensures |r| == size * size
  {
    seq(size * size, i requires 0 <= i < size * size => Px(b, size, Row(i, size), size - 1 - Col(i, size)))
  }

  /** `_vflip`: the rows in reverse order. */
  function VFlip(b: Block, size: int): (r: Block)
    requires 0 <= size && |b| == size * size
    ensures |r| == size * size
  {
    seq(size * size, i requires 0 <= i < size * size => Px(b, size, size - 1 - Row(i, size), Col(i, size)))
  }

  lemma HFlipPx(b: Block, size: int, y: int, x: int)
    requires |b| == size * size && 0 <= y < size && 0 <= x < size
    ensures Px(HFlip(b, size), size, y, x) == Px(b, size, y, size - 1 - x)
  {
    RowColOf(y, x, size);
  }

  lemma VFlipPx(b: Block, size: int, y: int, x: int)
    requires |b| == size * size && 0 <= y < size && 0 <= x < size
    ensures Px(VFlip(b, size), size, y, x) == Px(b, size, size - 1 - y, x)
  {
    RowColOf(y, x, size);
  }

  /** The bitmap stored under flip code `r`: 1 `_hflip`, 2 `_vflip`, 3 `_hflip` of the `_vflip`. */
  function FlipBy(b: Block, size: int, r: int): (f: Block)
    requires 0 <= size && |b| == size * size
    ensures |f| == size * size
  {
    if r == 1 then HFlip(b, size)
    else if r == 2 then VFlip(b, size)
    else if r == 3 then HFlip(VFlip(b, size), size)
    else b
  }

  /** Where flip code `r` takes a row from. */
  function FlipRow(r: int, size: int, y: int): int {
    if r == 2 || r == 3 then size - 1 - y else y
  }

  /** Where flip code `r` takes a column from. */
  function FlipCol(r: int, size: int, x: int): int {
    if r == 1 || r == 3 then size - 1 - x else x
  }

  /** Pixel (y, x) of a flipped block is the pixel the flip moves there. */
  lemma FlipByPx(b: Block, size: int, r: int, y: int, x: int)
    requires |b| == size * size && 0 <= r < 4 && 0 <= y < size && 0 <= x < size
    ensures Px(FlipBy(b, size, r), size, y, x) == Px(b, size, FlipRow(r, size, y), FlipCol(r, size, x))
  {
    if r == 1 {
      HFlipPx(b, size, y, x);
    } else if r == 2 {
      VFlipPx(b, size, y, x);
    } else if r == 3 {
      HFlipPx(VFlip(b, size), size, y, x);
      VFlipPx(b, size, y, size - 1 - x);
    }
  }

  /** Python's `r1 ^ r2` on flip codes. */
  function Xor(r1: int, r2: int): int
    requires 0 <= r1 < 4 && 0 <= r2 < 4
  {
    ((r1 as bv2) ^ (r2 as bv2)) as int
  }

  /** The flip of `Xor(r1, r2)` moves rows and columns as `r1` after `r2`. */
  lemma XorMoves(r1: int, r2: int, size: int, y: int, x: int)
    requires 0 <= r1 < 4 && 0 <= r2 < 4
    ensures 0 <= Xor(r1, r2) < 4
    ensures FlipRow(Xor(r1, r2), size, y) == FlipRow(r1, size, FlipRow(r2, size, y))
    ensures FlipCol(Xor(r1, r2), size, x) == FlipCol(r1, size, FlipCol(r2, size, x))
  {
    if r1 == 0 {
      if r2 == 0 { assert Xor(r1, r2) == 0; }
      else if r2 == 1 { assert Xor(r1, r2) == 1; }
      else if r2 == 2 { assert Xor(r1, r2) == 2; }
      else { assert Xor(r1, r2) == 3; }
    } else if r1 == 1 {
      if r2 == 0 { assert Xor(r1, r2) == 1; }
      else if r2 == 1 { assert Xor(r1, r2) == 0; }
      else if r2 == 2 { assert Xor(r1, r2) == 3; }
      else { assert Xor(r1, r2) == 2; }
    } else if r1 == 2 {
      if r2 == 0 { assert Xor(r1, r2) == 2; }
      else if r2 == 1 { assert Xor(r1, r2) == 3; }
      else if r2 == 2 { assert Xor(r1, r2) == 0; }
      else { assert Xor(r1, r2) == 1; }
    } else {
      if r2 == 0 { assert Xor(r1, r2) == 3; }
      else if r2 == 1 { assert Xor(r1, r2) == 2; }
      else if r2 == 2 { assert Xor(r1, r2) == 1; }
      else { assert Xor(r1, r2) == 0; }
    }
  }

  /** Flipping a bitmap by `r1` and then by `r2` is flipping it by `r1 ^ r2`. */
  lemma FlipCompose(b: Block, size: int, r1: int, r2: int)
    requires 0 <= size && |b| == size * size && 0 <= r1 < 4 && 0 <= r2 < 4
    ensures 0 <= Xor(r1, r2) < 4
    ensures FlipBy(FlipBy(b, size, r1), size, r2) == FlipBy(b, size, Xor(r1, r2))
  {
    var lhs := FlipBy(FlipBy(b, size, r1), size, r2);
    var rhs := FlipBy(b, size, Xor(r1, r2));
    forall y, x | 0 <= y < size && 0 <= x < size
      ensures Px(lhs, size, y, x) == Px(rhs, size, y, x)
    {
      FlipByPx(FlipBy(b, size, r1), size, r2, y, x);
      FlipByPx(b, size, r1, FlipRow(r2, size, y), FlipCol(r2, size, x));
      XorMoves(r1, r2, size, y, x);
      FlipByPx(b, size, Xor(r1, r2), y, x);
    }
    BlockExt(lhs, rhs, size);
  }

  /** Each flip undoes itself: `_hflip` and `_vflip` are involutions. */
  lemma FlipTwice(b: Block, size: int, r: int)
    requires 0 <= size && |b| == size * size && 0 <= r < 4
    ensures FlipBy(FlipBy(b, size, r), size, r) == b
  {
    FlipCompose(b, size, r, r);
    XorMoves(r, r, size, 0, 0);
    assert Xor(r, r) == 0 by {
      if r == 0 { } else if r == 1 { } else if r == 2 { } else { }
    }
  }

  lemma HFlipTwice(b: Block, size: int)
    requires 0 <= size && |b| == size * size
    ensures HFlip(HFlip(b, size), size) == b
  {
    FlipTwice(b, size, 1);
  }

  lemma VFlipTwice(b: Block, size: int)
    requires 0 <= size && |b| == size * size
    ensures VFlip(VFlip(b, size), size) == b
  {
    FlipTwice(b, size, 2);
  }

  /** `r1 ^ (r1 ^ r2) == r2` and `0 ^ r == r`. */
  lemma XorCancel(r1: int, r2: int)
    requires 0 <= r1 < 4 && 0 <= r2 < 4
    ensures 0 <= Xor(r1, r2) < 4 && Xor(r1, Xor(r1, r2)) == r2 && Xor(0, r2) == r2
  {
    XorMoves(r1, r2, 0, 0, 0);
    var b1, b2 := r1 as bv2, r2 as bv2;
    assert b1 ^ (b1 ^ b2) == b2 && 0 ^ b2 == b2;
  }

  // ---------------------------------------------------------------------
  // Blocks of the image
  // ---------------------------------------------------------------------

  /** The image is `bh` blocks of `bs` rows high and every row `bw` blocks wide. */
  ghost predicate Tiles(img: Image, bs: int, bh: int, bw: int) {
    bs >= 1 && bh >= 0 && bw >= 0 && |img| == bh * bs
    && forall y :: 0 <= y < |img| ==> |img[y]| == bw * bs
  }

  /** Pixel row `sy` of block column `bc` lies inside an image row. */
  lemma SliceIn(bc: int, bw: int, bs: int)
    requires bs >= 1 && 0 <= bc < bw
    ensures 0 <= bc * bs && bc * bs + bs <= bw * bs
  {
    CellIn(bc, bs - 1, bs, bw);
  }

  /** The first `i` rows of the block in block row `br`, block column `bc`: the `block.extend` loop. */
  function BlockRows(img: Image, bs: int, bh: int, bw: int, br: int, bc: int, i: int): (b: Block)
    requires Tiles(img, bs, bh, bw) && 0 <= br < bh && 0 <= bc < bw && 0 <= i <= bs
    ensures |b| == i * bs
  {
    if i == 0 then []
    else
      CellIn(br, i - 1, bs, bh);
      SliceIn(bc, bw, bs);
      assert (i - 1) * bs + bs == i * bs;
      BlockRows(img, bs, bh, bw, br, bc, i - 1) + img[br * bs + i - 1][bc * bs .. bc * bs + bs]
  }

  /** The block in block row `br`, block column `bc`. */
  function BlockOf(img: Image, bs: int, bh: int, bw: int, br: int, bc: int): (b: Block)
    requires Tiles(img, bs, bh, bw) && 0 <= br < bh && 0 <= bc < bw
    ensures |b| == bs * bs
  {
    BlockRows(img, bs, bh, bw, br, bc, bs)
  }

  /** Row `sy` of a block is the matching slice of an image row. */
  lemma {:induction false} BlockRowSlice(img: Image, bs: int, bh: int, bw: int, br: int, bc: int, i: int, sy: int)
    requires Tiles(img, bs, bh, bw) && 0 <= br < bh && 0 <= bc < bw && 0 <= sy < i <= bs
    ensures 0 <= sy * bs && sy * bs + bs <= i * bs
    ensures 0 <= br * bs + sy < |img| && 0 <= bc * bs && bc * bs + bs <= |img[br * bs + sy]|
    ensures BlockRows(img, bs, bh, bw, br, bc, i)[sy * bs .. sy * bs + bs] == img[br * bs + sy][bc * bs .. bc * bs + bs]
  {
    CellIn(sy, bs - 1, bs, i);
    CellIn(br, sy, bs, bh);
    SliceIn(bc, bw, bs);
    var b := BlockRows(img, bs, bh, bw, br, bc, i);
    var prev := BlockRows(img, bs, bh, bw, br, bc, i - 1);
    assert (i - 1) * bs + bs == i * bs;
    if sy < i - 1 {
      BlockRowSlice(img, bs, bh, bw, br, bc, i - 1, sy);
      assert b[sy * bs .. sy * bs + bs] == prev[sy * bs .. sy * bs + bs];
    } else {
      assert b[sy * bs .. sy * bs + bs] == b[|prev|..];
    }
  }

  /** Number of the block in block row `br`, block column `bc`: its place in the name table. */
  function Pos(br: int, bc: int, bw: int): int {
    br * bw + bc
  }

  // ---------------------------------------------------------------------
  // Bitmaps and name table
  // ---------------------------------------------------------------------

  /**
   * `key2block` holds bitmaps 0 .. nblocks-1 under every flip code, each
   * `bs * bs` pixels and the flip of the one under code 0.
   */
  ghost predicate Bitmaps(k2b: map<Key, Block>, nblocks: int, bs: int) {
    bs >= 0 && nblocks >= 0
    && (forall k :: k in k2b <==> 0 <= k.id < nblocks && 0 <= k.flip < 4)
    && (forall k :: k in k2b ==> |k2b[k]| == bs * bs)
    && forall k :: k in k2b ==> k2b[k] == FlipBy(k2b[Key(k.id, 0)], bs, k.flip)
  }

  /** `block2key` only names bitmaps that are its keys. */
  ghost predicate Inverse(b2k: map<Block, Key>, k2b: map<Key, Block>) {
    forall b :: b in b2k ==> b2k[b] in k2b && k2b[b2k[b]] == b
  }

  /** Every entry of the name table names a bitmap. */
  ghost predicate Listed(nt: seq<Key>, k2b: map<Key, Block>) {
    forall t :: 0 <= t < |nt| ==> nt[t] in k2b
  }

  /** The entries before `upto` display the blocks they stand for. */
  ghost predicate ShowsBlocks(nt: seq<Key>, k2b: map<Key, Block>, img: Image, bs: int, bh: int, bw: int, upto: int)
    requires Tiles(img, bs, bh, bw) && Listed(nt, k2b) && upto <= |nt|
  {
    forall br, bc :: 0 <= br < bh && 0 <= bc < bw && Pos(br, bc, bw) < upto ==>
      k2b[nt[Pos(br, bc, bw)]] == BlockOf(img, bs, bh, bw, br, bc)
  }

  /** Bitmap `n` was created br entry `first[n]`, which names it unflipped. */
  ghost predicate FirstUses(nt: seq<Key>, nblocks: int, first: seq<int>) {
    |first| == nblocks
    && forall n :: 0 <= n < nblocks ==> 0 <= first[n] < |nt| && nt[first[n]] == Key(n, 0)
  }

  /** Lines 67-75: the block and its three flips stored as bitmap `n`. */
  method AddBitmap(block2key: map<Block, Key>, key2block: map<Key, Block>, n: int, bs: int, block: Block)
    returns (b2k: map<Block, Key>, k2b: map<Key, Block>)
    requires Bitmaps(key2block, n, bs) && Inverse(block2key, key2block) && |block| == bs * bs
    ensures Bitmaps(k2b, n + 1, bs) && Inverse(b2k, k2b)
    ensures Key(n, 0) in k2b && k2b[Key(n, 0)] == block
    ensures Extends(key2block, k2b)
  {
    var block2 := VFlip(block, bs);
    var block1 := HFlip(block, bs);
    var block3 := HFlip(block2, bs);
    b2k, k2b := block2key, key2block;
    b2k := b2k[block3 := Key(n, 3)];
    k2b := k2b[Key(n, 3) := block3];
    StoreKeepsInverse(block2key, key2block, block3, Key(n, 3));
    ghost var b2k3, k2b3 := b2k, k2b;
    b2k := b2k[block2 := Key(n, 2)];
    k2b := k2b[Key(n, 2) := block2];
    StoreKeepsInverse(b2k3, k2b3, block2, Key(n, 2));
    ghost var b2k2, k2b2 := b2k, k2b;
    b2k := b2k[block1 := Key(n, 1)];
    k2b := k2b[Key(n, 1) := block1];
    StoreKeepsInverse(b2k2, k2b2, block1, Key(n, 1));
    ghost var b2k1, k2b1 := b2k, k2b;
    b2k := b2k[block := Key(n, 0)];
    k2b := k2b[Key(n, 0) := block];
    StoreKeepsInverse(b2k1, k2b1, block, Key(n, 0));
    NewBitmap(key2block, n, bs, block, k2b);
  }

  /** Storing a block under a fresh key in both maps keeps them inverse. */
  lemma StoreKeepsInverse(b2k: map<Block, Key>, k2b: map<Key, Block>, b: Block, k: Key)
    requires Inverse(b2k, k2b) && k !in k2b
    ensures Inverse(b2k[b := k], k2b[k := b])
  {
  }

  /** The bitmaps extended by a block under its four flip codes. */
  lemma NewBitmap(key2block: map<Key, Block>, n: int, bs: int, block: Block, k2b: map<Key, Block>)
    requires Bitmaps(key2block, n, bs) && |block| == bs * bs
    requires k2b == key2block[Key(n, 3) := FlipBy(block, bs, 3)][Key(n, 2) := FlipBy(block, bs, 2)]
      [Key(n, 1) := FlipBy(block, bs, 1)][Key(n, 0) := block]
    ensures Bitmaps(k2b, n + 1, bs)
  {
    forall k | k in k2b
      ensures |k2b[k]| == bs * bs && k2b[k] == FlipBy(k2b[Key(k.id, 0)], bs, k.flip)
    {
      if k.id == n {
        assert k2b[Key(k.id, 0)] == block;
        assert k2b[k] == FlipBy(block, bs, k.flip);
      } else {
        assert k in key2block && k2b[k] == key2block[k] && k2b[Key(k.id, 0)] == key2block[Key(k.id, 0)];
      }
    }
  }

  /** The block-building loop of lines 59-61. */
  method ReadBlock(img: Image, bs: int, bh: int, bw: int, br: int, bc: int) returns (block: Block)
    requires Tiles(img, bs, bh, bw) && 0 <= br < bh && 0 <= bc < bw
    ensures block == BlockOf(img, bs, bh, bw, br, bc)
  {
    var y, x := br * bs, bc * bs;
    block := [];
    var i := 0;
    while i < bs
      invariant 0 <= i <= bs
      invariant block == BlockRows(img, bs, bh, bw, br, bc, i)
    {
      CellIn(br, i, bs, bh);
      SliceIn(bc, bw, bs);
      block := block + img[y + i][x .. x + bs];
      i := i + 1;
    }
  }

  /** Every entry of `k2b` is kept, unchanged, in `k2b'`. */
  ghost predicate Extends(k2b: map<Key, Block>, k2b': map<Key, Block>) {
    forall k :: k in k2b ==> k in k2b' && k2b'[k] == k2b[k]
  }

  /** Distinct blocks have distinct places in the name table. */
  lemma PosUnique(r1: int, c1: int, r2: int, c2: int, bw: int)
    requires 0 <= r1 && 0 <= r2 && 0 <= c1 < bw && 0 <= c2 < bw
    requires Pos(r1, c1, bw) == Pos(r2, c2, bw)
    ensures r1 == r2 && c1 == c2
  {
    DivModOf(r1, c1, bw);
    DivModOf(r2, c2, bw);
  }

  /** Appending the entry for block (br, bc) keeps the name table showing its blocks. */
  lemma AppendEntry(nt: seq<Key>, k2b: map<Key, Block>, k2b': map<Key, Block>, img: Image,
                    bs: int, bh: int, bw: int, br: int, bc: int, key: Key)
    requires Tiles(img, bs, bh, bw) && 0 <= br < bh && 0 <= bc < bw
    requires Listed(nt, k2b) && |nt| == Pos(br, bc, bw) && ShowsBlocks(nt, k2b, img, bs, bh, bw, |nt|)
    requires Extends(k2b, k2b') && key in k2b' && k2b'[key] == BlockOf(img, bs, bh, bw, br, bc)
    ensures Listed(nt + [key], k2b') && ShowsBlocks(nt + [key], k2b', img, bs, bh, bw, |nt| + 1)
  {
    var nt' := nt + [key];
    forall r, c | 0 <= r < bh && 0 <= c < bw && Pos(r, c, bw) < |nt| + 1
      ensures k2b'[nt'[Pos(r, c, bw)]] == BlockOf(img, bs, bh, bw, r, c)
    {
      CellIn(r, c, bw, bh);
      if Pos(r, c, bw) == |nt| {
        PosUnique(r, c, br, bc, bw);
      }
    }
  }

  /** What the dedup loop keeps true of its tables. */
  ghost predicate DedupInv(img: Image, bs: int, bh: int, bw: int, b2k: map<Block, Key>, k2b: map<Key, Block>,
                           nt: seq<Key>, nblocks: int, first: seq<int>)
    requires Tiles(img, bs, bh, bw)
  {
    Bitmaps(k2b, nblocks, bs) && Inverse(b2k, k2b) && Listed(nt, k2b) && |nt| <= bh * bw
    && ShowsBlocks(nt, k2b, img, bs, bh, bw, |nt|) && FirstUses(nt, nblocks, first)
  }

  /** Lines 59-75 for the block in block row `br`, block column `bc`. */
  method VisitBlock(img: Image, bs: int, bh: int, bw: int, br: int, bc: int,
                    block2key: map<Block, Key>, key2block: map<Key, Block>, nametable: seq<Key>, nblocks: int,
                    ghost first: seq<int>)
    returns (b2k: map<Block, Key>, k2b: map<Key, Block>, nt: seq<Key>, nb: int, ghost first': seq<int>)
    requires Tiles(img, bs, bh, bw) && 0 <= br < bh && 0 <= bc < bw && |nametable| == Pos(br, bc, bw)
    requires DedupInv(img, bs, bh, bw, block2key, key2block, nametable, nblocks, first)
    ensures DedupInv(img, bs, bh, bw, b2k, k2b, nt, nb, first') && |nt| == |nametable| + 1
  {
    CellIn(br, bc, bw, bh);
    var block := ReadBlock(img, bs, bh, bw, br, bc);
    if block in block2key {
      AppendEntry(nametable, key2block, key2block, img, bs, bh, bw, br, bc, block2key[block]);
      b2k, k2b, nt, nb, first' := block2key, key2block, nametable + [block2key[block]], nblocks, first;
    } else {
      b2k, k2b := AddBitmap(block2key, key2block, nblocks, bs, block);
      AppendEntry(nametable, key2block, k2b, img, bs, bh, bw, br, bc, Key(nblocks, 0));
      first' := first + [|nametable|];
      nt := nametable + [Key(nblocks, 0)];
      nb := nblocks + 1;
    }
  }

  /** Lines 54-75 for every block of block row `br`, left to right. */
  method VisitRow(img: Image, bs: int, bh: int, bw: int, br: int,
                  block2key: map<Block, Key>, key2block: map<Key, Block>, nametable: seq<Key>, nblocks: int,
                  ghost first: seq<int>)
    returns (b2k: map<Block, Key>, k2b: map<Key, Block>, nt: seq<Key>, nb: int, ghost first': seq<int>)
    requires Tiles(img, bs, bh, bw) && 0 <= br < bh && |nametable| == Pos(br, 0, bw)
    requires DedupInv(img, bs, bh, bw, block2key, key2block, nametable, nblocks, first)
    ensures DedupInv(img, bs, bh, bw, b2k, k2b, nt, nb, first') && |nt| == Pos(br + 1, 0, bw)
  {
    b2k, k2b, nt, nb, first' := block2key, key2block, nametable, nblocks, first;
    var bc := 0;
    while bc < bw
      invariant 0 <= bc <= bw && |nt| == Pos(br, bc, bw)
      invariant DedupInv(img, bs, bh, bw, b2k, k2b, nt, nb, first')
    {
      b2k, k2b, nt, nb, first' := VisitBlock(img, bs, bh, bw, br, bc, b2k, k2b, nt, nb, first');
      bc := bc + 1;
    }
    assert br * bw + bw == (br + 1) * bw;
  }

  /**
   * Lines 52-75: every block, in reading order, looked up among the
   * bitmaps and their flips, and stored as a new bitmap when absent. Each
   * entry of the name table then displays its block, and each bitmap was
   * created by an entry that names it unflipped.
   */
  method Dedup(img: Image, bs: int, bh: int, bw: int)
    returns (nametable: seq<Key>, key2block: map<Key, Block>, nblocks: int, ghost first: seq<int>)
    requires Tiles(img, bs, bh, bw)
    ensures Bitmaps(key2block, nblocks, bs) && Listed(nametable, key2block)
    ensures |nametable| == bh * bw
    ensures ShowsBlocks(nametable, key2block, img, bs, bh, bw, bh * bw)
    ensures FirstUses(nametable, nblocks, first)
  {
    var block2key: map<Block, Key> := map[];
    key2block := map[];
    nametable := [];
    nblocks := 0;
    first := [];
    var br := 0;
    while br < bh
      invariant 0 <= br <= bh && |nametable| == Pos(br, 0, bw)
      invariant DedupInv(img, bs, bh, bw, block2key, key2block, nametable, nblocks, first)
    {
      block2key, key2block, nametable, nblocks, first :=
        VisitRow(img, bs, bh, bw, br, block2key, key2block, nametable, nblocks, first);
      br := br + 1;
    }
  }

  // ---------------------------------------------------------------------
  // Merging similar bitmaps
  // ---------------------------------------------------------------------

  /** `sum((xa-xb)*(xa-xb) for xa,xb in zip(ba,bb))`: `zip` stops at the shorter one. */
  function SqDiff(a: seq<int>, b: seq<int>): int {
    if a == [] || b == [] then 0
    else (a[0] - b[0]) * (a[0] - b[0]) + SqDiff(a[1..], b[1..])
  }

  /** Squared differences are never negative, and vanish only for equal blocks. */
  lemma {:induction false} SqDiffZero(a: seq<int>, b: seq<int>)
    requires |a| == |b|
    ensures SqDiff(a, b) >= 0
    ensures SqDiff(a, b) == 0 ==> a == b
  {
    if a != [] {
      SqDiffZero(a[1..], b[1..]);
      var d := a[0] - b[0];
      if d < 0 {
        assert d * d == (-d) * (-d);
        MulLe(1, -d, -d);
      } else if d > 0 {
        MulLe(1, d, d);
      }
      if SqDiff(a, b) == 0 {
        assert a == [a[0]] + a[1..] && b == [b[0]] + b[1..];
      }
    }
  }

  /** The difference between bitmap `na` and bitmap `nb` under flip `r`. */
  ghost function Diff(k2b: map<Key, Block>, na: int, nb: int, r: int): int
    requires Key(na, 0) in k2b && Key(nb, r) in k2b
  {
    SqDiff(k2b[Key(na, 0)], k2b[Key(nb, r)])
  }

  /**
   * What `remap` says: bitmap `n` is merged into an earlier, unmerged
   * bitmap below `bound`, which under the flip recorded is within
   * `diffthresh` of it.
   */
  ghost predicate Merged(remap: map<int, Key>, k2b: map<Key, Block>, nblocks: int, bs: int, diffthresh: int, bound: int)
    requires Bitmaps(k2b, nblocks, bs)
  {
    forall n :: n in remap ==>
      0 <= remap[n].id < n < nblocks && remap[n].id < bound && remap[n].id !in remap
      && 0 <= remap[n].flip < 4 && Diff(k2b, remap[n].id, n, remap[n].flip) <= diffthresh
  }

  /** No two unmerged bitmaps with the first below `upto` are within `diffthresh` under any flip. */
  ghost predicate Apart(remap: map<int, Key>, k2b: map<Key, Block>, nblocks: int, bs: int, diffthresh: int, upto: int)
    requires Bitmaps(k2b, nblocks, bs)
  {
    forall na, nb, r :: 0 <= na < upto && na < nb < nblocks && na !in remap && nb !in remap && 0 <= r < 4 ==>
      Diff(k2b, na, nb, r) > diffthresh
  }

  /** The flip loop of lines 85-90 for the pair (na, nb). */
  method TryFlips(key2block: map<Key, Block>, nblocks: int, bs: int, diffthresh: int, na: int, nb: int,
                  remap: map<int, Key>) returns (remap': map<int, Key>)
    requires Bitmaps(key2block, nblocks, bs) && 0 <= na < nb < nblocks
    requires Merged(remap, key2block, nblocks, bs, diffthresh, na + 1) && na !in remap && nb !in remap
    ensures Merged(remap', key2block, nblocks, bs, diffthresh, na + 1) && na !in remap'
    ensures remap'.Keys == remap.Keys || remap'.Keys == remap.Keys + {nb}
    ensures nb !in remap' ==> forall r :: 0 <= r < 4 ==> Diff(key2block, na, nb, r) > diffthresh
  {
    remap' := remap;
    var ba := key2block[Key(na, 0)];
    var r := 0;
    while r < 4
      invariant 0 <= r <= 4
      invariant forall r' :: 0 <= r' < r ==> Diff(key2block, na, nb, r') > diffthresh
    {
      var bb := key2block[Key(nb, r)];
      var diff := SqDiff(ba, bb);
      if diff <= diffthresh {
        remap' := remap[nb := Key(na, r)];
        return;
      }
      r := r + 1;
    }
  }

  /** Lines 83-90: the unmerged bitmap `na` absorbs the later bitmaps close to it. */
  method AbsorbLater(key2block: map<Key, Block>, nblocks: int, bs: int, diffthresh: int, na: int,
                     remap: map<int, Key>) returns (remap': map<int, Key>)
    requires Bitmaps(key2block, nblocks, bs) && 0 <= na < nblocks && na !in remap
    requires Merged(remap, key2block, nblocks, bs, diffthresh, na)
    ensures Merged(remap', key2block, nblocks, bs, diffthresh, na + 1) && na !in remap'
    ensures remap.Keys <= remap'.Keys
    ensures forall b, r :: na < b < nblocks && b !in remap' && 0 <= r < 4 ==> Diff(key2block, na, b, r) > diffthresh
  {
    remap' := remap;
    var nb := na + 1;
    while nb < nblocks
      invariant na < nb <= nblocks && na !in remap' && remap.Keys <= remap'.Keys
      invariant Merged(remap', key2block, nblocks, bs, diffthresh, na + 1)
      invariant forall b, r :: na < b < nb && b !in remap' && 0 <= r < 4 ==> Diff(key2block, na, b, r) > diffthresh
    {
      if nb !in remap' {
        remap' := TryFlips(key2block, nblocks, bs, diffthresh, na, nb, remap');
      }
      nb := nb + 1;
    }
  }

  /**
   * Lines 79-90: each unmerged bitmap, in order, absorbs every later
   * unmerged bitmap that some flip brings within `diffthresh`, recording
   * the first such flip. Afterwards no two unmerged bitmaps are that close.
   */
  method Merge(key2block: map<Key, Block>, nblocks: int, bs: int, diffthresh: int) returns (remap: map<int, Key>)
    requires Bitmaps(key2block, nblocks, bs)
    ensures Merged(remap, key2block, nblocks, bs, diffthresh, nblocks)
    ensures Apart(remap, key2block, nblocks, bs, diffthresh, nblocks)
  {
    remap := map[];
    var na := 0;
    while na < nblocks
      invariant 0 <= na <= nblocks
      invariant Merged(remap, key2block, nblocks, bs, diffthresh, na)
      invariant Apart(remap, key2block, nblocks, bs, diffthresh, na)
    {
      if na !in remap {
        ghost var before := remap;
        remap := AbsorbLater(key2block, nblocks, bs, diffthresh, na, remap);
        assert Apart(remap, key2block, nblocks, bs, diffthresh, na + 1) by {
          assert Apart(before, key2block, nblocks, bs, diffthresh, na);
        }
      }
      na := na + 1;
    }
  }

  // ---------------------------------------------------------------------
  // Applying the merge and renumbering
  // ---------------------------------------------------------------------

  /** `remap.get(n, (n, 0))`. */
  function Lookup(remap: map<int, Key>, n: int): Key {
    if n in remap then remap[n] else Key(n, 0)
  }

  /** Flip codes are 0 .. 3. */
  ghost predicate Flips(nt: seq<Key>) {
    forall t :: 0 <= t < |nt| ==> 0 <= nt[t].flip < 4
  }

  /** Line 93: every entry redirected to the bitmap its own was merged into, the flips composed. */
  function Remapped(nt: seq<Key>, remap: map<int, Key>): (nt': seq<Key>)
    requires Flips(nt) && forall n :: n in remap ==> 0 <= remap[n].flip < 4
    ensures |nt'| == |nt|
  {
    seq(|nt|, t requires 0 <= t < |nt| =>
      Key(Lookup(remap, nt[t].id).id, Xor(Lookup(remap, nt[t].id).flip, nt[t].flip)))
  }

  /** `used`: the bitmap numbers the name table names. */
  function Used(nt: seq<Key>): set<int> {
    set t | 0 <= t < |nt| :: nt[t].id
  }

  /** `defined`: the bitmap numbers `key2block` holds. */
  function Defined(k2b: map<Key, Block>): set<int> {
    set k | k in k2b :: k.id
  }

  /** `key2block` holds exactly the bitmaps 0 .. nblocks-1. */
  lemma DefinedBelow(k2b: map<Key, Block>, nblocks: int, bs: int)
    requires Bitmaps(k2b, nblocks, bs)
    ensures forall n :: n in Defined(k2b) <==> 0 <= n < nblocks
  {
    forall n | 0 <= n < nblocks
      ensures n in Defined(k2b)
    {
      assert Key(n, 0) in k2b;
    }
  }

  /** After the merge the name table names exactly the bitmaps that were not merged away. */
  lemma UsedAfterMerge(nt: seq<Key>, k2b: map<Key, Block>, nblocks: int, bs: int, first: seq<int>,
                       remap: map<int, Key>, diffthresh: int)
    requires Bitmaps(k2b, nblocks, bs) && Listed(nt, k2b) && FirstUses(nt, nblocks, first)
    requires Merged(remap, k2b, nblocks, bs, diffthresh, nblocks)
    ensures Flips(nt)
    ensures forall n :: n in Used(Remapped(nt, remap)) <==> 0 <= n < nblocks && n !in remap
  {
    assert Flips(nt) by {
      forall t | 0 <= t < |nt|
        ensures 0 <= nt[t].flip < 4
      {
        assert nt[t] in k2b;
      }
    }
    var nt' := Remapped(nt, remap);
    forall n | n in Used(nt')
      ensures 0 <= n < nblocks && n !in remap
    {
      var t :| 0 <= t < |nt'| && nt'[t].id == n;
      assert nt[t] in k2b;
    }
    forall n | 0 <= n < nblocks && n !in remap
      ensures n in Used(nt')
    {
      var t := first[n];
      assert nt'[t].id == n;
    }
  }

  /** The bitmaps defined but no longer named are the merged ones. */
  lemma UnusedSet(nt: seq<Key>, k2b: map<Key, Block>, nblocks: int, bs: int, first: seq<int>,
                  remap: map<int, Key>, diffthresh: int)
    requires Bitmaps(k2b, nblocks, bs) && Listed(nt, k2b) && FirstUses(nt, nblocks, first)
    requires Merged(remap, k2b, nblocks, bs, diffthresh, nblocks)
    ensures Flips(nt)
    ensures Defined(k2b) - Used(Remapped(nt, remap)) == remap.Keys
  {
    DefinedBelow(k2b, nblocks, bs);
    UsedAfterMerge(nt, k2b, nblocks, bs, first, remap, diffthresh);
    var unused := Defined(k2b) - Used(Remapped(nt, remap));
    forall n | n in remap
      ensures n in unused
    {
      assert 0 <= remap[n].id < n < nblocks;
    }
  }

  /**
   * The assertion of line 101 always holds: as many defined bitmaps go
   * unused after the merge as were merged away.
   */
  lemma UnusedAreMerged(nt: seq<Key>, k2b: map<Key, Block>, nblocks: int, bs: int, first: seq<int>,
                        remap: map<int, Key>, diffthresh: int)
    requires Bitmaps(k2b, nblocks, bs) && Listed(nt, k2b) && FirstUses(nt, nblocks, first)
    requires Merged(remap, k2b, nblocks, bs, diffthresh, nblocks)
    ensures Flips(nt)
    ensures |Defined(k2b) - Used(Remapped(nt, remap))| == |remap|
  {
    UnusedSet(nt, k2b, nblocks, bs, first, remap, diffthresh);
    assert |remap.Keys| == |remap|;
  }

  /** A bitmap merged into another keeps showing its pixels when `diffthresh <= 0`: the entry of line 93 for `k`. */
  lemma ExactEntry(k2b: map<Key, Block>, nblocks: int, bs: int, remap: map<int, Key>, diffthresh: int, k: Key)
    requires Bitmaps(k2b, nblocks, bs) && Merged(remap, k2b, nblocks, bs, diffthresh, nblocks)
    requires diffthresh <= 0 && k in k2b
    ensures 0 <= Lookup(remap, k.id).flip < 4
    ensures Key(Lookup(remap, k.id).id, Xor(Lookup(remap, k.id).flip, k.flip)) in k2b
    ensures k2b[Key(Lookup(remap, k.id).id, Xor(Lookup(remap, k.id).flip, k.flip))] == k2b[k]
  {
    var n, r2 := k.id, k.flip;
    if n in remap {
      var na, r1 := remap[n].id, remap[n].flip;
      SqDiffZero(k2b[Key(na, 0)], k2b[Key(n, r1)]);
      XorCancel(r1, r2);
      var b := k2b[Key(n, 0)];
      FlipCompose(b, bs, r1, Xor(r1, r2));
      calc {
        k2b[Key(na, Xor(r1, r2))];
        FlipBy(k2b[Key(na, 0)], bs, Xor(r1, r2));
        FlipBy(k2b[Key(n, r1)], bs, Xor(r1, r2));
        FlipBy(FlipBy(b, bs, r1), bs, Xor(r1, r2));
        FlipBy(b, bs, r2);
        k2b[k];
      }
    } else {
      XorCancel(0, r2);
    }
  }

  /** Line 93 leaves every entry naming an unmerged bitmap. */
  lemma RemappedListed(nt: seq<Key>, k2b: map<Key, Block>, nblocks: int, bs: int, remap: map<int, Key>, diffthresh: int)
    requires Bitmaps(k2b, nblocks, bs) && Listed(nt, k2b)
    requires Merged(remap, k2b, nblocks, bs, diffthresh, nblocks)
    ensures Flips(nt)
    ensures Listed(Remapped(nt, remap), k2b)
    ensures forall t :: 0 <= t < |nt| ==> Remapped(nt, remap)[t].id !in remap
  {
    forall t | 0 <= t < |nt|
      ensures 0 <= nt[t].flip < 4
    {
      assert nt[t] in k2b;
    }
    var nt' := Remapped(nt, remap);
    forall t | 0 <= t < |nt|
      ensures nt'[t] in k2b && nt'[t].id !in remap
    {
      assert nt[t] in k2b;
      XorCancel(Lookup(remap, nt[t].id).flip, nt[t].flip);
    }
  }

  /**
   * With `diffthresh <= 0` only identical bitmaps (up to a flip) are
   * merged, and line 93 composes the flips so that every entry still
   * displays the same pixels.
   */
  lemma ExactMergeKeepsBlocks(nt: seq<Key>, k2b: map<Key, Block>, nblocks: int, bs: int, remap: map<int, Key>,
                              diffthresh: int)
    requires Bitmaps(k2b, nblocks, bs) && Listed(nt, k2b)
    requires Merged(remap, k2b, nblocks, bs, diffthresh, nblocks) && diffthresh <= 0
    ensures Flips(nt) && Listed(Remapped(nt, remap), k2b)
    ensures forall t :: 0 <= t < |nt| ==> k2b[Remapped(nt, remap)[t]] == k2b[nt[t]]
  {
    RemappedListed(nt, k2b, nblocks, bs, remap, diffthresh);
    forall t | 0 <= t < |nt|
      ensures k2b[Remapped(nt, remap)[t]] == k2b[nt[t]]
    {
      ExactEntry(k2b, nblocks, bs, remap, diffthresh, nt[t]);
    }
  }

  /** What `Renumber` establishes: `remap` numbers its keys 0, 1, ... in increasing order, `order` lists them. */
  ghost predicate Numbering(remap: map<int, int>, order: seq<int>) {
    |order| == |remap|
    && (forall m :: 0 <= m < |order| ==> order[m] in remap && remap[order[m]] == m)
    && (forall n :: n in remap ==> 0 <= remap[n] < |remap|)
    && (forall a, b :: a in remap && b in remap && a < b ==> remap[a] < remap[b])
  }

  /** Numbering a number above all numbered ones next keeps the numbering dense and increasing. */
  lemma NumberNext(remap: map<int, int>, order: seq<int>, n: int)
    requires Numbering(remap, order) && forall k :: k in remap ==> k < n
    ensures |remap[n := |remap|]| == |remap| + 1
    ensures Numbering(remap[n := |remap|], order + [n])
  {
    assert n !in remap;
  }

  /**
   * Lines 102-104: the bitmaps in use numbered 0, 1, ... in increasing
   * order. `used` lies within 0 .. nblocks-1, so counting up through that
   * range meets its members in the order `sorted` lists them; `next` is
   * the counter of `enumerate`.
   */
  method Renumber(used: set<int>, nblocks: int) returns (remap: map<int, int>, ghost order: seq<int>)
    requires nblocks >= 0 && forall n :: n in used ==> 0 <= n < nblocks
    ensures remap.Keys == used && Numbering(remap, order)
  {
    remap := map[];
    order := [];
    var next := 0;
    var n := 0;
    while n < nblocks
      invariant 0 <= n <= nblocks
      invariant forall k :: k in remap <==> k in used && k < n
      invariant next == |remap| && Numbering(remap, order)
    {
      if n in used {
        NumberNext(remap, order, n);
        remap := remap[n := next];
        order := order + [n];
        next := next + 1;
      }
      n := n + 1;
    }
    assert n == nblocks;
    forall k | k in used
      ensures k in remap.Keys
    {
      assert k in used && k < n;
    }
    forall k | k in remap.Keys
      ensures k in used
    {
      assert k in remap;
    }
  }

  /** No two numbers are renamed alike. */
  ghost predicate Injective(remap: map<int, int>) {
    forall a, b :: a in remap && b in remap && remap[a] == remap[b] ==> a == b
  }

  /** An increasing numbering renames no two numbers alike. */
  lemma NumberingInjective(remap: map<int, int>, order: seq<int>)
    requires Numbering(remap, order)
    ensures Injective(remap)
  {
    forall a, b | a in remap && b in remap && remap[a] == remap[b]
      ensures a == b
    {
      if a < b || b < a {
        assert false;
      }
    }
  }

  /** Line 107: every entry renamed. */
  function Renumbered(nt: seq<Key>, remap: map<int, int>): (nt': seq<Key>)
    requires forall t :: 0 <= t < |nt| ==> nt[t].id in remap
    ensures |nt'| == |nt|
  {
    seq(|nt|, t requires 0 <= t < |nt| => Key(remap[nt[t].id], nt[t].flip))
  }

  /** Line 108: the bitmaps in use under their new numbers. */
  function RenumberedBitmaps(k2b: map<Key, Block>, remap: map<int, int>): map<Key, Block>
    requires Injective(remap)
  {
    map k | k in k2b && k.id in remap :: Key(remap[k.id], k.flip) := k2b[k]
  }

  /** A bitmap in use keeps its four flips under its new number. */
  lemma RenumberedAt(k2b: map<Key, Block>, nblocks: int, bs: int, remap: map<int, int>, order: seq<int>, m: int, r: int)
    requires Bitmaps(k2b, nblocks, bs) && Numbering(remap, order) && Injective(remap)
    requires forall n :: n in remap ==> 0 <= n < nblocks
    requires 0 <= m < |remap| && 0 <= r < 4
    ensures Key(m, r) in RenumberedBitmaps(k2b, remap)
    ensures RenumberedBitmaps(k2b, remap)[Key(m, r)] == k2b[Key(order[m], r)]
  {
    var k := Key(order[m], r);
    assert k in k2b && k.id in remap;
    assert Key(remap[k.id], k.flip) == Key(m, r);
  }

  /** Line 108 keeps the shape of the table of bitmaps, now numbered 0 .. |remap|-1. */
  lemma RenumberedShape(k2b: map<Key, Block>, nblocks: int, bs: int, remap: map<int, int>, order: seq<int>)
    requires Bitmaps(k2b, nblocks, bs) && Numbering(remap, order) && Injective(remap)
    requires forall n :: n in remap ==> 0 <= n < nblocks
    ensures Bitmaps(RenumberedBitmaps(k2b, remap), |remap|, bs)
  {
    var k2b' := RenumberedBitmaps(k2b, remap);
    forall k: Key | 0 <= k.id < |remap| && 0 <= k.flip < 4
      ensures k in k2b' && |k2b'[k]| == bs * bs && k2b'[k] == FlipBy(k2b'[Key(k.id, 0)], bs, k.flip)
    {
      RenumberedAt(k2b, nblocks, bs, remap, order, k.id, k.flip);
      RenumberedAt(k2b, nblocks, bs, remap, order, k.id, 0);
      assert Key(order[k.id], k.flip) in k2b;
    }
    forall k | k in k2b'
      ensures 0 <= k.id < |remap| && 0 <= k.flip < 4
    {
      var k0 :| k0 in k2b && k0.id in remap && k == Key(remap[k0.id], k0.flip);
    }
  }

  /** Every renamed entry names the renamed bitmap with the same pixels. */
  lemma RenumberedEntries(nt: seq<Key>, k2b: map<Key, Block>, nblocks: int, bs: int, remap: map<int, int>, order: seq<int>)
    requires Bitmaps(k2b, nblocks, bs) && Listed(nt, k2b) && Numbering(remap, order) && Injective(remap)
    requires forall n :: n in remap ==> 0 <= n < nblocks
    requires forall t :: 0 <= t < |nt| ==> nt[t].id in remap
    ensures Listed(Renumbered(nt, remap), RenumberedBitmaps(k2b, remap))
    ensures forall t :: 0 <= t < |nt| ==> RenumberedBitmaps(k2b, remap)[Renumbered(nt, remap)[t]] == k2b[nt[t]]
  {
    forall t | 0 <= t < |nt|
      ensures Renumbered(nt, remap)[t] in RenumberedBitmaps(k2b, remap)
      ensures RenumberedBitmaps(k2b, remap)[Renumbered(nt, remap)[t]] == k2b[nt[t]]
    {
      assert nt[t] in k2b;
      RenumberedAt(k2b, nblocks, bs, remap, order, remap[nt[t].id], nt[t].flip);
    }
  }

  /** The renamed table names every new number 0 .. |remap|-1 and no other. */
  lemma RenumberedUsed(nt: seq<Key>, remap: map<int, int>, order: seq<int>)
    requires remap.Keys == Used(nt) && Numbering(remap, order)
    requires forall t :: 0 <= t < |nt| ==> nt[t].id in remap
    ensures forall n :: n in Used(Renumbered(nt, remap)) <==> 0 <= n < |remap|
  {
    var nt' := Renumbered(nt, remap);
    forall n | 0 <= n < |remap|
      ensures n in Used(nt')
    {
      assert order[n] in Used(nt);
      var t :| 0 <= t < |nt| && nt[t].id == order[n];
      assert nt'[t].id == n;
    }
  }

  /**
   * Lines 106-109: after renumbering, the name table names exactly the
   * bitmaps 0 .. |remap|-1, every entry still displays the same pixels,
   * and the table of bitmaps keeps its shape.
   */
  lemma RenumberedTables(nt: seq<Key>, k2b: map<Key, Block>, nblocks: int, bs: int, remap: map<int, int>, order: seq<int>)
    requires Bitmaps(k2b, nblocks, bs) && Listed(nt, k2b)
    requires remap.Keys == Used(nt) && Numbering(remap, order)
    ensures Injective(remap)
    ensures forall t :: 0 <= t < |nt| ==> nt[t].id in remap
    ensures Bitmaps(RenumberedBitmaps(k2b, remap), |remap|, bs)
    ensures forall n :: n in Used(Renumbered(nt, remap)) <==> 0 <= n < |remap|
    ensures Listed(Renumbered(nt, remap), RenumberedBitmaps(k2b, remap))
    ensures forall t :: 0 <= t < |nt| ==> RenumberedBitmaps(k2b, remap)[Renumbered(nt, remap)[t]] == k2b[nt[t]]
  {
    NumberingInjective(remap, order);
    forall t | 0 <= t < |nt|
      ensures nt[t].id in remap
    {
      assert nt[t].id in Used(nt);
    }
    forall n | n in remap
      ensures 0 <= n < nblocks
    {
      var t :| 0 <= t < |nt| && nt[t].id == n;
      assert nt[t] in k2b;
    }
    RenumberedShape(k2b, nblocks, bs, remap, order);
    RenumberedEntries(nt, k2b, nblocks, bs, remap, order);
    RenumberedUsed(nt, remap, order);
  }

  // ---------------------------------------------------------------------
  // Re-synthesis
  // ---------------------------------------------------------------------

  /** A name table of `bh` by `bw` entries, each naming a `bs * bs` bitmap. */
  ghost predicate Tileable(k2b: map<Key, Block>, nt: seq<Key>, bs: int, bh: int, bw: int) {
    bs >= 1 && bh >= 0 && bw >= 0 && |nt| == bh * bw && Listed(nt, k2b)
    && forall t :: 0 <= t < |nt| ==> |k2b[nt[t]]| == bs * bs
  }

  /** Pixel row `sy` of block row `br` across its first `n` blocks: the `row.extend` loop of line 121. */
  function TileRow(k2b: map<Key, Block>, nt: seq<Key>, bs: int, bh: int, bw: int, br: int, sy: int, n: int): (row: seq<int>)
    requires Tileable(k2b, nt, bs, bh, bw) && 0 <= br < bh && 0 <= sy < bs && 0 <= n <= bw
    ensures |row| == n * bs
  {
    if n == 0 then []
    else
      CellIn(br, n - 1, bw, bh);
      CellIn(sy, bs - 1, bs, bs);
      assert (n - 1) * bs + bs == n * bs;
      TileRow(k2b, nt, bs, bh, bw, br, sy, n - 1) + k2b[nt[Pos(br, n - 1, bw)]][sy * bs .. sy * bs + bs]
  }

  /** The rows of the first `upto` block rows are in place. */
  ghost predicate SynthesizedUpTo(img: Image, k2b: map<Key, Block>, nt: seq<Key>, bs: int, bh: int, bw: int, upto: int)
    requires Tileable(k2b, nt, bs, bh, bw) && 0 <= upto <= bh
  {
    |img| == upto * bs
    && forall br, sy :: 0 <= br < upto && 0 <= sy < bs ==>
      (CellIn(br, sy, bs, upto); img[br * bs + sy] == TileRow(k2b, nt, bs, bh, bw, br, sy, bw))
  }

  /** Lines 119-121: one pixel row, block by block. */
  method SynthesizeRow(k2b: map<Key, Block>, nt: seq<Key>, bs: int, bh: int, bw: int, br: int, sy: int)
    returns (row: seq<int>)
    requires Tileable(k2b, nt, bs, bh, bw) && 0 <= br < bh && 0 <= sy < bs
    ensures row == TileRow(k2b, nt, bs, bh, bw, br, sy, bw)
  {
    row := [];
    var bx := 0;
    while bx < bw
      invariant 0 <= bx <= bw && row == TileRow(k2b, nt, bs, bh, bw, br, sy, bx)
    {
      CellIn(br, bx, bw, bh);
      CellIn(sy, bs - 1, bs, bs);
      row := row + k2b[nt[br * bw + bx]][sy * bs .. (sy + 1) * bs];
      bx := bx + 1;
    }
  }

  /** Lines 118-122 for block row `br`: its `bs` pixel rows. */
  method SynthesizeBlockRow(k2b: map<Key, Block>, nt: seq<Key>, bs: int, bh: int, bw: int, br: int)
    returns (rows: seq<seq<int>>)
    requires Tileable(k2b, nt, bs, bh, bw) && 0 <= br < bh
    ensures |rows| == bs && forall sy :: 0 <= sy < bs ==> rows[sy] == TileRow(k2b, nt, bs, bh, bw, br, sy, bw)
  {
    rows := [];
    var sy := 0;
    while sy < bs
      invariant 0 <= sy <= bs && |rows| == sy
      invariant forall s :: 0 <= s < sy ==> rows[s] == TileRow(k2b, nt, bs, bh, bw, br, s, bw)
    {
      var row := SynthesizeRow(k2b, nt, bs, bh, bw, br, sy);
      rows := rows + [row];
      sy := sy + 1;
    }
  }

  /** Appending the rows of block row `upto` keeps the earlier rows in place. */
  lemma AppendBlockRow(img: Image, rows: seq<seq<int>>, k2b: map<Key, Block>, nt: seq<Key>, bs: int, bh: int, bw: int,
                       upto: int)
    requires Tileable(k2b, nt, bs, bh, bw) && 0 <= upto < bh
    requires SynthesizedUpTo(img, k2b, nt, bs, bh, bw, upto)
    requires |rows| == bs && forall sy :: 0 <= sy < bs ==> rows[sy] == TileRow(k2b, nt, bs, bh, bw, upto, sy, bw)
    ensures SynthesizedUpTo(img + rows, k2b, nt, bs, bh, bw, upto + 1)
  {
    var img' := img + rows;
    forall br, sy | 0 <= br < upto + 1 && 0 <= sy < bs
      ensures 0 <= br * bs + sy < |img'| && img'[br * bs + sy] == TileRow(k2b, nt, bs, bh, bw, br, sy, bw)
    {
      CellIn(br, sy, bs, upto + 1);
      if br < upto {
        CellIn(br, sy, bs, upto);
      } else {
        assert img'[br * bs + sy] == rows[sy];
      }
    }
  }

  /** Pixel row `y` of an image `bh` blocks high is row `sy` of block row `br`. */
  lemma BlockRowOf(y: int, bs: int, bh: int) returns (br: int, sy: int)
    requires bs >= 1 && 0 <= y < bh * bs
    ensures 0 <= br < bh && 0 <= sy < bs && y == br * bs + sy
  {
    br, sy := y / bs, y % bs;
    if br >= bh {
      MulLe(bh, br, bs);
      assert false;
    }
  }

  /** The rows of a finished synthesis are `bw * bs` pixels wide. */
  lemma SynthesizedTiles(img: Image, k2b: map<Key, Block>, nt: seq<Key>, bs: int, bh: int, bw: int)
    requires Tileable(k2b, nt, bs, bh, bw) && SynthesizedUpTo(img, k2b, nt, bs, bh, bw, bh)
    ensures Tiles(img, bs, bh, bw)
  {
    forall y | 0 <= y < |img|
      ensures |img[y]| == bw * bs
    {
      var br, sy := BlockRowOf(y, bs, bh);
      assert img[br * bs + sy] == TileRow(k2b, nt, bs, bh, bw, br, sy, bw);
    }
  }

  /** Lines 115-122: the image re-synthesised from the name table, block row by block row. */
  method Resynthesize(k2b: map<Key, Block>, nt: seq<Key>, bs: int, bh: int, bw: int) returns (img: Image)
    requires Tileable(k2b, nt, bs, bh, bw)
    ensures Tiles(img, bs, bh, bw) && SynthesizedUpTo(img, k2b, nt, bs, bh, bw, bh)
  {
    img := [];
    var br := 0;
    while br < bh
      invariant 0 <= br <= bh && SynthesizedUpTo(img, k2b, nt, bs, bh, bw, br)
    {
      var rows := SynthesizeBlockRow(k2b, nt, bs, bh, bw, br);
      AppendBlockRow(img, rows, k2b, nt, bs, bh, bw, br);
      img := img + rows;
      br := br + 1;
    }
    SynthesizedTiles(img, k2b, nt, bs, bh, bw);
  }

  /** A row assembled from the blocks the name table shows is the image row they were cut from. */
  lemma {:induction false} TileRowOfBlocks(img: Image, k2b: map<Key, Block>, nt: seq<Key>, bs: int, bh: int, bw: int,
                                           br: int, sy: int, n: int)
    requires Tiles(img, bs, bh, bw) && Tileable(k2b, nt, bs, bh, bw)
    requires ShowsBlocks(nt, k2b, img, bs, bh, bw, bh * bw)
    requires 0 <= br < bh && 0 <= sy < bs && 0 <= n <= bw
    ensures 0 <= br * bs + sy < |img| && n * bs <= |img[br * bs + sy]|
    ensures TileRow(k2b, nt, bs, bh, bw, br, sy, n) == img[br * bs + sy][.. n * bs]
  {
    CellIn(br, sy, bs, bh);
    MulLe(n, bw, bs);
    if n > 0 {
      var y := br * bs + sy;
      TileRowOfBlocks(img, k2b, nt, bs, bh, bw, br, sy, n - 1);
      CellIn(br, n - 1, bw, bh);
      BlockRowSlice(img, bs, bh, bw, br, n - 1, bs, sy);
      assert k2b[nt[Pos(br, n - 1, bw)]] == BlockOf(img, bs, bh, bw, br, n - 1);
      assert (n - 1) * bs + bs == n * bs;
      assert img[y][.. (n - 1) * bs] + img[y][(n - 1) * bs .. n * bs] == img[y][.. n * bs];
    }
  }

  /** Re-synthesising from a name table that shows every block of an image gives back the image. */
  lemma ResynthesisLossless(img: Image, out: Image, k2b: map<Key, Block>, nt: seq<Key>, bs: int, bh: int, bw: int)
    requires Tiles(img, bs, bh, bw) && Tileable(k2b, nt, bs, bh, bw)
    requires ShowsBlocks(nt, k2b, img, bs, bh, bw, bh * bw)
    requires SynthesizedUpTo(out, k2b, nt, bs, bh, bw, bh)
    ensures out == img
  {
    forall y | 0 <= y < |img|
      ensures out[y] == img[y]
    {
      var br, sy := BlockRowOf(y, bs, bh);
      TileRowOfBlocks(img, k2b, nt, bs, bh, bw, br, sy, bw);
      assert img[y][.. bw * bs] == img[y];
    }
  }

  // ---------------------------------------------------------------------
  // CompressBlockMap
  // ---------------------------------------------------------------------

  /** `GetImageSize` finds a row 0, and the assertions of lines 49-50 hold. */
  predicate Divisible(img: Image, bs: int)
    requires bs >= 1
  {
    img != [] && |img[0]| % bs == 0 && |img| % bs == 0
  }

  /** A table whose entries show the same pixels as those of a table showing the image shows the image too. */
  lemma ShowsTransfer(img: Image, bs: int, bh: int, bw: int, nt: seq<Key>, k2b: map<Key, Block>,
                      nt': seq<Key>, k2b': map<Key, Block>)
    requires Tiles(img, bs, bh, bw) && Listed(nt, k2b) && Listed(nt', k2b') && |nt| == |nt'| == bh * bw
    requires ShowsBlocks(nt, k2b, img, bs, bh, bw, bh * bw)
    requires forall t :: 0 <= t < |nt| ==> k2b'[nt'[t]] == k2b[nt[t]]
    ensures ShowsBlocks(nt', k2b', img, bs, bh, bw, bh * bw)
  {
    forall br, bc | 0 <= br < bh && 0 <= bc < bw && Pos(br, bc, bw) < bh * bw
      ensures k2b'[nt'[Pos(br, bc, bw)]] == BlockOf(img, bs, bh, bw, br, bc)
    {
      assert k2b'[nt'[Pos(br, bc, bw)]] == k2b[nt[Pos(br, bc, bw)]];
    }
  }

  /** With `diffthresh <= 0` the renumbered tables still show every block of the image. */
  lemma ExactTablesShowBlocks(img: Image, bs: int, bh: int, bw: int, nt: seq<Key>, k2b: map<Key, Block>, nblocks: int,
                              remap: map<int, Key>, diffthresh: int, remap2: map<int, int>, order: seq<int>)
    requires Tiles(img, bs, bh, bw) && Bitmaps(k2b, nblocks, bs) && Listed(nt, k2b) && |nt| == bh * bw
    requires ShowsBlocks(nt, k2b, img, bs, bh, bw, bh * bw)
    requires Merged(remap, k2b, nblocks, bs, diffthresh, nblocks) && diffthresh <= 0
    requires Flips(nt) && Listed(Remapped(nt, remap), k2b)
    requires remap2.Keys == Used(Remapped(nt, remap)) && Numbering(remap2, order)
    ensures Injective(remap2) && forall t :: 0 <= t < |nt| ==> Remapped(nt, remap)[t].id in remap2
    ensures Listed(Renumbered(Remapped(nt, remap), remap2), RenumberedBitmaps(k2b, remap2))
    ensures ShowsBlocks(Renumbered(Remapped(nt, remap), remap2), RenumberedBitmaps(k2b, remap2), img, bs, bh, bw, bh * bw)
  {
    var nt1 := Remapped(nt, remap);
    ExactMergeKeepsBlocks(nt, k2b, nblocks, bs, remap, diffthresh);
    ShowsTransfer(img, bs, bh, bw, nt, k2b, nt1, k2b);
    RenumberedTables(nt1, k2b, nblocks, bs, remap2, order);
    ShowsTransfer(img, bs, bh, bw, nt1, k2b, Renumbered(nt1, remap2), RenumberedBitmaps(k2b, remap2));
  }

  /**
   * Lines 47-123. `None` stands for the exception the source raises: an
   * empty image (row 0 of `GetImageSize`) or a side that is not a multiple
   * of the block size (the assertions of lines 49-50). Otherwise the
   * re-synthesised image has the input's dimensions, and with
   * `diffthresh <= 0` (only identical blocks up to a flip are merged) it
   * is the input itself.
   */
  method CompressBlockMap(img: Image, blocksize: int, diffthresh: int) returns (res: Option<Image>)
    requires blocksize >= 1 && Rectangular(img)
    ensures res.None? <==> !Divisible(img, blocksize)
    ensures res.Some? ==> |res.value| == |img| && forall y :: 0 <= y < |res.value| ==> |res.value[y]| == |img[0]|
    ensures res.Some? && diffthresh <= 0 ==> res.value == img
  {
    if img == [] || |img[0]| % blocksize != 0 || |img| % blocksize != 0 {
      return None;
    }
    var w, h := |img[0]|, |img|;
    var bs, bw, bh := blocksize, w / blocksize, h / blocksize;
    assert Tiles(img, bs, bh, bw);
    var nametable, key2block, nblocks, first := Dedup(img, bs, bh, bw);
    var merged := Merge(key2block, nblocks, bs, diffthresh);
    UnusedAreMerged(nametable, key2block, nblocks, bs, first, merged, diffthresh);
    UsedAfterMerge(nametable, key2block, nblocks, bs, first, merged, diffthresh);
    RemappedListed(nametable, key2block, nblocks, bs, merged, diffthresh);
    var nt1 := Remapped(nametable, merged);
    var defined, used := Defined(key2block), Used(nt1);
    assert |defined - used| == |merged|;
    var remap, order := Renumber(used, nblocks);
    RenumberedTables(nt1, key2block, nblocks, bs, remap, order);
    var nt2 := Renumbered(nt1, remap);
    var k2b2 := RenumberedBitmaps(key2block, remap);
    assert Tileable(k2b2, nt2, bs, bh, bw);
    var out := Resynthesize(k2b2, nt2, bs, bh, bw);
    if diffthresh <= 0 {
      ExactTablesShowBlocks(img, bs, bh, bw, nametable, key2block, nblocks, merged, diffthresh, remap, order);
      ResynthesisLossless(img, out, k2b2, nt2, bs, bh, bw);
    }
    res := Some(out);
  }
}
