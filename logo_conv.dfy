/**
 * The logo compressor of logo/logoconv.py: the quantisation of grey levels
 * and `CompressRLE`, the run-length coding whose bytes become the
 * `LogoData` string of the generated header.
 *
 * Images are Python's nested lists: a sequence of rows of integers. The
 * PIL conversions, the `__main__` driver and the `print` diagnostics are
 * not part of the model.
 */
module LogoConv {
  import opened StringUtil

  newtype Byte = b: int | 0 <= b < 256

  /** A grey image: rows of pixel values. */
  type Image = seq<seq<int>>

  /** Every row has the width of the first one. */
  ghost predicate Rectangular(img: Image) {
    forall y :: 0 <= y < |img| ==> |img[y]| == |img[0]|
  }

  /** Every pixel lies in [lo, hi]. */
  ghost predicate PixelsIn(img: Image, lo: int, hi: int) {
    forall y, x :: 0 <= y < |img| && 0 <= x < |img[y]| ==> lo <= img[y][x] <= hi
  }

  // ---------------------------------------------------------------------
  // Quantisation
  // ---------------------------------------------------------------------

  /** Python's `a // b`, which rounds toward minus infinity. */
  function FloorDiv(a: int, b: int): int
    requires b != 0
  {
    if b > 0 then a / b else (-a) / (-b)
  }

  /** `QuantizeImage` on one pixel: 0..255 scaled to 0..levels-1, rounded. */
  function Quantize(x: int, levels: int): int {
    (x * (levels - 1) + 127) / 255
  }

  /** `DequantizeImage` on one pixel; `radj` is `(levels - 1) >> 1`. */
  function Dequantize(q: int, levels: int): int
    requires levels != 1
  {
    FloorDiv(q * 255 + (levels - 1) / 2, levels - 1)
  }

  function QuantizeImage(img: Image, levels: int): (r: Image)
    ensures |r| == |img| && forall y :: 0 <= y < |img| ==> |r[y]| == |img[y]|
  {
    seq(|img|, y requires 0 <= y < |img| =>
      seq(|img[y]|, x requires 0 <= x < |img[y]| => Quantize(img[y][x], levels)))
  }

  /**
   * `DequantizeImage`; it divides by `levels - 1` once per pixel, so only
   * an image without pixels may be given `levels == 1`.
   */
  function DequantizeImage(img: Image, levels: int): (r: Image)
    requires levels != 1 || forall y :: 0 <= y < |img| ==> img[y] == []
    ensures |r| == |img| && forall y :: 0 <= y < |img| ==> |r[y]| == |img[y]|
  {
    seq(|img|, y requires 0 <= y < |img| =>
      seq(|img[y]|, x requires 0 <= x < |img[y]| => Dequantize(img[y][x], levels)))
  }

  /** a * c <= b * c for a <= b and c >= 0. */
  lemma MulMono(a: int, b: int, c: int)
    requires a <= b && c >= 0
    ensures a * c <= b * c
  {
    assert b * c - a * c == (b - a) * c;
  }

  /** A grey value quantises to one of the `levels` levels. */
  lemma QuantizeRange(x: int, levels: int)
    requires 0 <= x <= 255 && levels >= 1
    ensures 0 <= Quantize(x, levels) < levels
  {
    MulMono(x, 255, levels - 1);
    assert 255 * (levels - 1) + 127 < 255 * levels;
  }

  /** Euclidean division by a positive divisor brackets the dividend. */
  lemma DivBracket(a: int, n: int)
    requires n > 0
    ensures (a / n) * n <= a < (a / n) * n + n
  {
    assert (a / n) * n + a % n == a;
  }

  /** A quotient is the one multiple that brackets the dividend. */
  lemma DivUnique(a: int, n: int, d: int)
    requires n > 0 && d * n <= a < d * n + n
    ensures a / n == d
  {
    DivBracket(a, n);
    var e := a / n;
    if e < d {
      MulMono(e + 1, d, n);
    } else if e > d {
      MulMono(d + 1, e, n);
    }
  }

  /** A level dequantises to a grey value. */
  lemma DequantizeRange(q: int, levels: int)
    requires levels >= 2 && 0 <= q < levels
    ensures 0 <= Dequantize(q, levels) <= 255
  {
    var n := levels - 1;
    var a := q * 255 + n / 2;
    MulMono(q, n, 255);
    MulMono(0, q, 255);
    var d := a / n;
    DivBracket(a, n);
    if d > 255 {
      MulMono(256, d, n);
    } else if d < 0 {
      MulMono(d, -1, n);
    }
  }

  /**
   * Quantising a dequantised level gives the level back, for every level
   * count up to 256 (beyond that two levels share a grey value).
   */
  lemma QuantizeDequantize(q: int, levels: int)
    requires 2 <= levels <= 256 && 0 <= q < levels
    ensures Quantize(Dequantize(q, levels), levels) == q
  {
    var n := levels - 1;
    var a := q * 255 + n / 2;
    var d := a / n;
    assert Dequantize(q, levels) == d;
    var t := d * n;
    DivBracket(a, n);
    assert a - n < t <= a;
    DivUnique(t + 127, 255, q);
  }

  /** A quantised image of grey values holds levels only. */
  lemma QuantizeImageRange(img: Image, levels: int)
    requires PixelsIn(img, 0, 255) && levels >= 1
    ensures PixelsIn(QuantizeImage(img, levels), 0, levels - 1)
  {
    var r := QuantizeImage(img, levels);
    forall y, x | 0 <= y < |r| && 0 <= x < |r[y]|
      ensures 0 <= r[y][x] <= levels - 1
    {
      QuantizeRange(img[y][x], levels);
    }
  }

  /** Dequantising then quantising an image of levels restores it. */
  lemma QuantizeDequantizeImage(img: Image, levels: int)
    requires 2 <= levels <= 256 && PixelsIn(img, 0, levels - 1)
    ensures QuantizeImage(DequantizeImage(img, levels), levels) == img
  {
    var r := QuantizeImage(DequantizeImage(img, levels), levels);
    forall y | 0 <= y < |img|
      ensures r[y] == img[y]
    {
      forall x | 0 <= x < |img[y]|
        ensures r[y][x] == img[y][x]
      {
        QuantizeDequantize(img[y][x], levels);
      }
    }
  }

  // ---------------------------------------------------------------------
  // CompressRLE: runs
  // ---------------------------------------------------------------------

  /** An entry of `data`: `count` copies of `level`. */
  datatype Run = Run(level: int, count: int)

  /** `[v] * r`, empty when `r` is not positive. */
  function Repeat(v: int, r: int): seq<int> {
    seq(if r > 0 then r else 0, _ => v)
  }

  /** The pixels a list of runs stands for. */
  function Expand(rs: seq<Run>): seq<int> {
    if rs == [] then [] else Repeat(rs[0].level, rs[0].count) + Expand(rs[1..])
  }

  lemma {:induction false} ExpandAppend(rs: seq<Run>, r: Run)
    ensures Expand(rs + [r]) == Expand(rs) + Repeat(r.level, r.count)
  {
    if rs != [] {
      assert (rs + [r])[1..] == rs[1..] + [r];
      ExpandAppend(rs[1..], r);
    }
  }

  /** The loop variables of the row scan: the runs emitted, `last` and `run`. */
  datatype Scan = Scan(out: seq<Run>, last: int, run: int)

  /** The state at the start of each row: `last = -1`, `run = 0`. */
  const Start := Scan([], -1, 0)

  /**
   * The test of the row loop: `curr` extends the pending run when it equals
   * `last`, is 0 or the image's maximum, and the run is below `runlimit`
   * (or `runlimit` is 0).
   */
  predicate Extends(st: Scan, curr: int, runlevs: set<int>, runlimit: int) {
    curr == st.last && curr in runlevs && (runlimit == 0 || st.run < runlimit)
  }

  /** One pixel of the row loop. */
  function Step(st: Scan, curr: int, runlevs: set<int>, runlimit: int): Scan {
    if Extends(st, curr, runlevs, runlimit) then Scan(st.out, st.last, st.run + 1)
    else Scan(if st.run != 0 then st.out + [Run(st.last, st.run)] else st.out, curr, 1)
  }

  /** The row loop over `xs`, from the start state. */
  function ScanRow(xs: seq<int>, runlevs: set<int>, runlimit: int): Scan {
    if xs == [] then Start
    else Step(ScanRow(xs[..|xs| - 1], runlevs, runlimit), xs[|xs| - 1], runlevs, runlimit)
  }

  /** The runs one row contributes: the scan of the row followed by the sentinel -1. */
  function RowRuns(row: seq<int>, runlevs: set<int>, runlimit: int): seq<Run> {
    ScanRow(row + [-1], runlevs, runlimit).out
  }

  /** `data`: the runs of all rows, top to bottom. */
  function ImageRuns(img: Image, runlevs: set<int>, runlimit: int): seq<Run> {
    if img == [] then []
    else ImageRuns(img[..|img| - 1], runlevs, runlimit) + RowRuns(img[|img| - 1], runlevs, runlimit)
  }

  /**
   * A run covers at least one pixel, and only a run of a level in
   * `runlevs` covers more, then at most `runlimit` when that is non-zero.
   */
  predicate RunBounded(r: Run, runlevs: set<int>, runlimit: int) {
    r.count >= 1 && (r.count > 1 ==> r.level in runlevs && (runlimit == 0 || r.count <= runlimit))
  }

  ghost predicate RunsBounded(rs: seq<Run>, runlevs: set<int>, runlimit: int) {
    forall i :: 0 <= i < |rs| ==> RunBounded(rs[i], runlevs, runlimit)
  }

  /** `b` could have been appended to `a`. */
  predicate Joinable(a: Run, b: Run, runlevs: set<int>, runlimit: int) {
    a.level == b.level && a.level in runlevs && (runlimit == 0 || a.count < runlimit)
  }

  /** No two neighbouring runs could have been one. */
  ghost predicate RunsMaximal(rs: seq<Run>, runlevs: set<int>, runlimit: int) {
    forall i :: 0 <= i < |rs| - 1 ==> !Joinable(rs[i], rs[i + 1], runlevs, runlimit)
  }

  /** No pixel is the sentinel -1. */
  ghost predicate NoSentinel(xs: seq<int>) {
    forall k :: 0 <= k < |xs| ==> xs[k] != -1
  }

  /** What the row loop knows after the pixels `xs`: the emitted runs and the pending one cover `xs`. */
  ghost predicate ScanInv(st: Scan, xs: seq<int>, runlevs: set<int>, runlimit: int) {
    if xs == [] then st == Start
    else
      var rs := st.out + [Run(st.last, st.run)];
      st.run >= 1 && st.last == xs[|xs| - 1] && Expand(rs) == xs
      && RunsBounded(rs, runlevs, runlimit) && RunsMaximal(rs, runlevs, runlimit)
  }

  lemma ScanStep(st: Scan, xs: seq<int>, curr: int, runlevs: set<int>, runlimit: int)
    requires ScanInv(st, xs, runlevs, runlimit) && curr != -1
    ensures ScanInv(Step(st, curr, runlevs, runlimit), xs + [curr], runlevs, runlimit)
  {
    if xs == [] {
      var st' := Step(st, curr, runlevs, runlimit);
      assert st'.out + [Run(st'.last, st'.run)] == [Run(curr, 1)];
      assert Expand([Run(curr, 1)]) == [curr];
    } else if Extends(st, curr, runlevs, runlimit) {
      ScanExtend(st, xs, curr, runlevs, runlimit);
    } else {
      ScanClose(st, xs, curr, runlevs, runlimit);
    }
  }

  /** A pixel that extends the pending run. */
  lemma ScanExtend(st: Scan, xs: seq<int>, curr: int, runlevs: set<int>, runlimit: int)
    requires xs != [] && ScanInv(st, xs, runlevs, runlimit) && Extends(st, curr, runlevs, runlimit)
    ensures ScanInv(Step(st, curr, runlevs, runlimit), xs + [curr], runlevs, runlimit)
  {
    var rs := st.out + [Run(st.last, st.run)];
    var rs' := st.out + [Run(st.last, st.run + 1)];
    assert Step(st, curr, runlevs, runlimit) == Scan(st.out, st.last, st.run + 1);
    ExpandAppend(st.out, Run(st.last, st.run));
    ExpandAppend(st.out, Run(st.last, st.run + 1));
    assert Repeat(st.last, st.run + 1) == Repeat(st.last, st.run) + [curr];
    assert |rs'| == |rs|;
    forall i | 0 <= i < |rs'|
      ensures rs'[i].level == rs[i].level && (i < |rs| - 1 ==> rs'[i] == rs[i])
    {
    }
    assert RunsMaximal(rs', runlevs, runlimit) by {
      forall i | 0 <= i < |rs'| - 1
        ensures !Joinable(rs'[i], rs'[i + 1], runlevs, runlimit)
      {
        assert !Joinable(rs[i], rs[i + 1], runlevs, runlimit);
      }
    }
  }

  /** A pixel that closes the pending run and starts a new one. */
  lemma ScanClose(st: Scan, xs: seq<int>, curr: int, runlevs: set<int>, runlimit: int)
    requires xs != [] && ScanInv(st, xs, runlevs, runlimit) && !Extends(st, curr, runlevs, runlimit)
    ensures ScanInv(Step(st, curr, runlevs, runlimit), xs + [curr], runlevs, runlimit)
  {
    var rs := st.out + [Run(st.last, st.run)];
    var rs' := rs + [Run(curr, 1)];
    assert Step(st, curr, runlevs, runlimit) == Scan(rs, curr, 1);
    ExpandAppend(rs, Run(curr, 1));
    assert !Joinable(rs[|rs| - 1], Run(curr, 1), runlevs, runlimit);
    assert forall i :: 0 <= i < |rs| ==> rs'[i] == rs[i];
  }

  lemma {:induction false} ScanRowInv(xs: seq<int>, runlevs: set<int>, runlimit: int)
    requires NoSentinel(xs)
    ensures ScanInv(ScanRow(xs, runlevs, runlimit), xs, runlevs, runlimit)
  {
    if xs != [] {
      var init := xs[..|xs| - 1];
      ScanRowInv(init, runlevs, runlimit);
      ScanStep(ScanRow(init, runlevs, runlimit), init, xs[|xs| - 1], runlevs, runlimit);
      assert init + [xs[|xs| - 1]] == xs;
    }
  }

  /**
   * The runs of a row stand for exactly its pixels; each is bounded as the
   * loop's test allows; and no two neighbours could have been merged. The
   * sentinel closes the last run, so runs never cross into the next row.
   */
  lemma RowRunsExact(row: seq<int>, runlevs: set<int>, runlimit: int)
    requires NoSentinel(row)
    ensures Expand(RowRuns(row, runlevs, runlimit)) == row
    ensures RunsBounded(RowRuns(row, runlevs, runlimit), runlevs, runlimit)
    ensures RunsMaximal(RowRuns(row, runlevs, runlimit), runlevs, runlimit)
  {
    ScanRowInv(row, runlevs, runlimit);
    assert (row + [-1])[..|row|] == row;
  }

  // ---------------------------------------------------------------------
  // CompressRLE: re-synthesis
  // ---------------------------------------------------------------------

  /**
   * The inner re-synthesis loop: pop runs and extend `row` until it is `w`
   * long; None where `diter.pop()` finds the list empty.
   */
  function TakeRow(data: seq<Run>, w: int, row: seq<int>): (r: Option<(seq<int>, seq<Run>)>)
    ensures r.Some? ==> |r.value.1| <= |data| && (|row| < w ==> |r.value.1| < |data|)
    decreases |data|
  {
    if |row| >= w then Some((row, data))
    else if data == [] then None
    else TakeRow(data[1..], w, row + Repeat(data[0].level, data[0].count))
  }

  /** The re-synthesised image, None where the runs run out inside a row. */
  function Rebuild(data: seq<Run>, w: int): Option<Image>
    requires w >= 1
    decreases |data|
  {
    if data == [] then Some([])
    else
      match TakeRow(data, w, [])
      case None => None
      case Some((row, rest)) =>
        match Rebuild(rest, w)
        case None => None
        case Some(rows) => Some([row] + rows)
  }

  /** The runs of a row of width `w` and then anything: the row is taken, the rest is left. */
  lemma {:induction false} TakeRowRuns(rs: seq<Run>, rest: seq<Run>, w: int, acc: seq<int>)
    requires forall i :: 0 <= i < |rs| ==> rs[i].count >= 1
    requires |acc| + |Expand(rs)| == w
    ensures TakeRow(rs + rest, w, acc) == Some((acc + Expand(rs), rest))
  {
    if rs == [] {
      assert rs + rest == rest;
      assert acc + Expand(rs) == acc;
    } else {
      assert |Expand(rs)| >= 1;
      assert (rs + rest)[1..] == rs[1..] + rest;
      var acc' := acc + Repeat(rs[0].level, rs[0].count);
      TakeRowRuns(rs[1..], rest, w, acc');
      assert acc' + Expand(rs[1..]) == acc + Expand(rs);
    }
  }

  /** Concatenation regrouped, on names rather than on the runs themselves. */
  lemma Regroup(x: seq<Run>, y: seq<Run>, a: seq<Run>, b: seq<Run>, c: seq<Run>)
    requires x == (a + b) + c && y == b + c
    ensures x == a + y
  {
  }

  /** Dropping the first row of a tall image, seen from its last row. */
  lemma ImageRunsTail(img: Image, runlevs: set<int>, runlimit: int)
    requires |img| > 1
    ensures ImageRuns(img[1..], runlevs, runlimit)
         == ImageRuns(img[..|img| - 1][1..], runlevs, runlimit) + RowRuns(img[|img| - 1], runlevs, runlimit)
  {
    var tail := img[1..];
    assert tail[..|tail| - 1] == img[..|img| - 1][1..] && tail[|tail| - 1] == img[|img| - 1];
  }

  lemma {:induction false} ImageRunsFront(img: Image, runlevs: set<int>, runlimit: int)
    requires img != []
    ensures ImageRuns(img, runlevs, runlimit) == RowRuns(img[0], runlevs, runlimit) + ImageRuns(img[1..], runlevs, runlimit)
  {
    if |img| > 1 {
      var init := img[..|img| - 1];
      ImageRunsFront(init, runlevs, runlimit);
      ImageRunsTail(img, runlevs, runlimit);
      assert init[0] == img[0];
      Regroup(ImageRuns(img, runlevs, runlimit), ImageRuns(img[1..], runlevs, runlimit), RowRuns(img[0], runlevs, runlimit),
              ImageRuns(init[1..], runlevs, runlimit), RowRuns(img[|img| - 1], runlevs, runlimit));
    } else {
      assert img[..0] == [] && img[1..] == [];
    }
  }

  /**
   * Re-synthesising the runs of a rectangular image, at its width, gives
   * the image back.
   */
  lemma {:induction false} RebuildImageRuns(img: Image, runlevs: set<int>, runlimit: int, w: int)
    requires w >= 1 && forall y :: 0 <= y < |img| ==> |img[y]| == w && NoSentinel(img[y])
    ensures Rebuild(ImageRuns(img, runlevs, runlimit), w) == Some(img)
  {
    if img != [] {
      var rs := RowRuns(img[0], runlevs, runlimit);
      var rest := ImageRuns(img[1..], runlevs, runlimit);
      ImageRunsFront(img, runlevs, runlimit);
      RowRunsExact(img[0], runlevs, runlimit);
      TakeRowRuns(rs, rest, w, []);
      assert [] + Expand(rs) == img[0];
      RebuildImageRuns(img[1..], runlevs, runlimit, w);
      assert rs != [];
      assert [img[0]] + img[1..] == img;
    }
  }

  /** `Some(rows + later)`, or None when `later` is None. */
  function Prepend(rows: Image, later: Option<Image>): Option<Image> {
    if later.Some? then Some(rows + later.value) else None
  }

  /** Lines 144-152 of logoconv.py: popping runs from the reversed list row by row. */
  method Resynthesize(data: seq<Run>, w: int) returns (img: Option<Image>)
    requires w >= 1
    ensures img == Rebuild(data, w)
  {
    var p := 0;
    var rows: Image := [];
    assert data[0..] == data;
    PrependNil(Rebuild(data, w));
    while p < |data|
      invariant 0 <= p <= |data|
      invariant Rebuild(data, w) == Prepend(rows, Rebuild(data[p..], w))
      decreases |data| - p
    {
      ghost var p0 := p;
      var row: seq<int> := [];
      while |row| < w
        invariant p0 <= p <= |data|
        invariant p == p0 ==> row == []
        invariant TakeRow(data[p0..], w, []) == TakeRow(data[p..], w, row)
        decreases |data| - p
      {
        if p == |data| {
          return None;
        }
        assert data[p..][1..] == data[p + 1..];
        row := row + Repeat(data[p].level, data[p].count);
        p := p + 1;
      }
      assert TakeRow(data[p0..], w, []) == Some((row, data[p..]));
      assert Rebuild(data[p0..], w) == Prepend([row], Rebuild(data[p..], w));
      PrependTwice(rows, row, Rebuild(data[p..], w));
      rows := rows + [row];
    }
    assert rows + [] == rows;
    img := Some(rows);
  }

  lemma PrependNil(later: Option<Image>)
    ensures Prepend([], later) == later
  {
    if later.Some? {
      assert [] + later.value == later.value;
    }
  }

  lemma PrependTwice(rows: Image, row: seq<int>, later: Option<Image>)
    ensures Prepend(rows, Prepend([row], later)) == Prepend(rows + [row], later)
  {
    if later.Some? {
      assert rows + ([row] + later.value) == (rows + [row]) + later.value;
    }
  }

  // ---------------------------------------------------------------------
  // CompressRLE: the loop and the bytes
  // ---------------------------------------------------------------------

  /** Every row has a pixel (else `max(map(max, img))` raises). */
  predicate RowsNonEmpty(img: Image) {
    img != [] && forall y :: 0 <= y < |img| ==> img[y] != []
  }

  /** `max` of a non-empty row. */
  function RowMax(row: seq<int>): (m: int)
    requires row != []
    ensures m in row && forall k :: 0 <= k < |row| ==> row[k] <= m
  {
    if |row| == 1 then row[0]
    else
      var m := RowMax(row[..|row| - 1]);
      assert forall k :: 0 <= k < |row| - 1 ==> row[..|row| - 1][k] == row[k];
      if row[|row| - 1] > m then row[|row| - 1] else m
  }

  /** `max(map(max, img))`: the brightest pixel. */
  function MaxPixel(img: Image): (m: int)
    requires RowsNonEmpty(img)
    ensures exists y :: 0 <= y < |img| && m in img[y]
    ensures forall y, x :: 0 <= y < |img| && 0 <= x < |img[y]| ==> img[y][x] <= m
  {
    if |img| == 1 then RowMax(img[0])
    else
      var init := img[..|img| - 1];
      var m := MaxPixel(init);
      assert forall y :: 0 <= y < |init| ==> init[y] == img[y];
      var r := RowMax(img[|img| - 1]);
      if r > m then r else m
  }

  /** `runlevs`: the levels whose repeats are merged. */
  function RunLevels(img: Image): set<int>
    requires RowsNonEmpty(img)
  {
    {0, MaxPixel(img)}
  }

  /** The row loops of lines 130-140, appending to `data` as they go. */
  method CompressRows(img: Image, runlevs: set<int>, runlimit: int) returns (data: seq<Run>)
    ensures data == ImageRuns(img, runlevs, runlimit)
  {
    data := [];
    var i := 0;
    while i < |img|
      invariant 0 <= i <= |img|
      invariant data == ImageRuns(img[..i], runlevs, runlimit)
    {
      var row := img[i] + [-1];
      ghost var base := data;
      var last, run := -1, 0;
      var j := 0;
      while j < |row|
        invariant 0 <= j <= |row|
        invariant |base| <= |data| && data[..|base|] == base
        invariant ScanRow(row[..j], runlevs, runlimit) == Scan(data[|base|..], last, run)
      {
        var curr := row[j];
        assert row[..j + 1][..j] == row[..j];
        if curr == last && curr in runlevs && (runlimit == 0 || run < runlimit) {
          run := run + 1;
        } else {
          if run != 0 {
            data := data + [Run(last, run)];
          }
          last := curr;
          run := 1;
        }
        j := j + 1;
      }
      assert row[..j] == row;
      assert img[..i + 1][..i] == img[..i];
      assert data == base + data[|base|..];
      i := i + 1;
    }
    assert img[..i] == img;
  }

  /**
   * The bytes of one entry: a level outside `runlevs` as `count` copies of
   * `level + 47`, a run of level 0 as `64 + count`, a run of the maximum
   * as `96 + count`; None where `bytes` refuses a value outside 0..255.
   */
  function EncodeRun(r: Run, runlevs: set<int>): Option<seq<Byte>> {
    if r.level !in runlevs then
      var b := r.level + 47;
      if 0 <= b < 256 then Some(seq(if r.count > 0 then r.count else 0, _ => b as Byte)) else None
    else
      var b := r.count + (if r.level != 0 then 96 else 64);
      if 0 <= b < 256 then Some([b as Byte]) else None
  }

  /** `b''.join(...)` over all entries. */
  function EncodeRuns(data: seq<Run>, runlevs: set<int>): Option<seq<Byte>> {
    if data == [] then Some([])
    else
      match EncodeRun(data[0], runlevs)
      case None => None
      case Some(head) =>
        match EncodeRuns(data[1..], runlevs)
        case None => None
        case Some(tail) => Some(head + tail)
  }

  /** What `CompressRLE` returns for an image whose rows all have pixels. */
  function Compressed(img: Image, runlimit: int): Option<(Image, seq<Byte>)>
    requires RowsNonEmpty(img)
  {
    var data := ImageRuns(img, RunLevels(img), runlimit);
    match Rebuild(data, |img[0]|)
    case None => None
    case Some(img2) =>
      match EncodeRuns(data, RunLevels(img))
      case None => None
      case Some(bs) => Some((img2, bs))
  }

  /**
   * `CompressRLE`: None where it raises, else the re-synthesised image and
   * the bytes.
   */
  method CompressRle(img: Image, runlimit: int) returns (res: Option<(Image, seq<Byte>)>)
    ensures !RowsNonEmpty(img) ==> res.None?
    ensures RowsNonEmpty(img) ==> res == Compressed(img, runlimit)
  {
    if !RowsNonEmpty(img) {
      return None;
    }
    var runlevs := {0, MaxPixel(img)};
    var data := CompressRows(img, runlevs, runlimit);
    var img2 := Resynthesize(data, |img[0]|);
    if img2.None? {
      return None;
    }
    var bs := EncodeRuns(data, runlevs);
    if bs.None? {
      return None;
    }
    res := Some((img2.value, bs.value));
  }

  // ---------------------------------------------------------------------
  // Reading the bytes back
  // ---------------------------------------------------------------------

  /**
   * How a byte of `LogoData` reads: 'A'.. a run of level 0, 'a'.. a run of
   * the maximum level, anything below 'A' one pixel of level `b - 47`.
   */
  function DecodeByte(b: Byte, maxLevel: int): Run {
    if 65 <= b <= 96 then Run(0, b as int - 64)
    else if b >= 97 then Run(maxLevel, b as int - 96)
    else Run(b as int - 47, 1)
  }

  function DecodeBytes(bs: seq<Byte>, maxLevel: int): (rs: seq<Run>)
    ensures |rs| == |bs|
  {
    seq(|bs|, i requires 0 <= i < |bs| => DecodeByte(bs[i], maxLevel))
  }

  /** The byte is a digit-like character, an upper-case or a lower-case letter: never '"' or '\\'. */
  predicate Printable(b: Byte) {
    48 <= b <= 90 || 97 <= b <= 122
  }

  /**
   * With at most 19 levels and runs capped at 26, the bytes are printable
   * and read back as the runs that made them.
   */
  lemma {:induction false} EncodeDecode(data: seq<Run>, maxLevel: int, runlimit: int)
    requires 0 <= maxLevel <= 18 && 1 <= runlimit <= 26
    requires RunsBounded(data, {0, maxLevel}, runlimit)
    requires forall i :: 0 <= i < |data| ==> 0 <= data[i].level <= maxLevel
    ensures EncodeRuns(data, {0, maxLevel}).Some?
    ensures forall i :: 0 <= i < |EncodeRuns(data, {0, maxLevel}).value| ==> Printable(EncodeRuns(data, {0, maxLevel}).value[i])
    ensures DecodeBytes(EncodeRuns(data, {0, maxLevel}).value, maxLevel) == data
  {
    if data != [] {
      var r := data[0];
      assert RunBounded(r, {0, maxLevel}, runlimit);
      EncodeDecode(data[1..], maxLevel, runlimit);
      var head := EncodeRun(r, {0, maxLevel}).value;
      var tail := EncodeRuns(data[1..], {0, maxLevel}).value;
      assert |head| == 1 && DecodeByte(head[0], maxLevel) == r;
      assert EncodeRuns(data, {0, maxLevel}).value == head + tail;
      assert data == [r] + data[1..];
    }
  }

  /**
   * `CompressRLE` on a rectangular image of non-negative pixels succeeds
   * and re-synthesises the image; with at most 19 levels and a run limit
   * of 1 to 26, its bytes are printable and decode, at the image's width,
   * to the image.
   */
  lemma CompressRoundTrip(img: Image, runlimit: int)
    requires RowsNonEmpty(img) && Rectangular(img) && PixelsIn(img, 0, 255)
    requires MaxPixel(img) <= 18 && 1 <= runlimit <= 26
    ensures Compressed(img, runlimit).Some? && Compressed(img, runlimit).value.0 == img
    ensures forall i :: 0 <= i < |Compressed(img, runlimit).value.1| ==> Printable(Compressed(img, runlimit).value.1[i])
    ensures Rebuild(DecodeBytes(Compressed(img, runlimit).value.1, MaxPixel(img)), |img[0]|) == Some(img)
  {
    var m := MaxPixel(img);
    var data := ImageRuns(img, {0, m}, runlimit);
    forall y | 0 <= y < |img|
      ensures |img[y]| == |img[0]| && NoSentinel(img[y])
    {
    }
    RebuildImageRuns(img, {0, m}, runlimit, |img[0]|);
    ImageRunsProps(img, {0, m}, runlimit, m);
    EncodeDecode(data, m, runlimit);
  }

  /** The runs of all rows are bounded, and their levels are pixels. */
  lemma {:induction false} ImageRunsProps(img: Image, runlevs: set<int>, runlimit: int, m: int)
    requires PixelsIn(img, 0, m)
    ensures RunsBounded(ImageRuns(img, runlevs, runlimit), runlevs, runlimit)
    ensures forall i :: 0 <= i < |ImageRuns(img, runlevs, runlimit)| ==> 0 <= ImageRuns(img, runlevs, runlimit)[i].level <= m
  {
    if img != [] {
      var init := img[..|img| - 1];
      var row := img[|img| - 1];
      assert PixelsIn(init, 0, m);
      ImageRunsProps(init, runlevs, runlimit, m);
      RowRunsExact(row, runlevs, runlimit);
      RowRunsLevels(row, runlevs, runlimit);
    }
  }

  /** Every run of a row repeats one of the row's pixels. */
  lemma RowRunsLevels(row: seq<int>, runlevs: set<int>, runlimit: int)
    requires NoSentinel(row)
    ensures forall i :: 0 <= i < |RowRuns(row, runlevs, runlimit)| ==> RowRuns(row, runlevs, runlimit)[i].level in row
  {
    var rs := RowRuns(row, runlevs, runlimit);
    RowRunsExact(row, runlevs, runlimit);
    forall i | 0 <= i < |rs|
      ensures rs[i].level in row
    {
      ExpandHas(rs, i);
    }
  }

  /** A run of positive count puts its level in the expansion. */
  lemma {:induction false} ExpandHas(rs: seq<Run>, i: int)
    requires 0 <= i < |rs| && rs[i].count >= 1
    ensures rs[i].level in Expand(rs)
  {
    if i == 0 {
      assert Expand(rs)[0] == rs[0].level;
    } else {
      ExpandHas(rs[1..], i - 1);
    }
  }

  /**
   * The logo as the driver makes it: grey values quantised to 12 levels
   * and compressed with runs of at most 26, which the bytes then give back.
   */
  lemma QuantizedLogoRoundTrip(grey: Image)
    requires RowsNonEmpty(grey) && Rectangular(grey) && PixelsIn(grey, 0, 255)
    ensures RowsNonEmpty(QuantizeImage(grey, 12))
    ensures Compressed(QuantizeImage(grey, 12), 26).Some?
    ensures Rebuild(DecodeBytes(Compressed(QuantizeImage(grey, 12), 26).value.1, MaxPixel(QuantizeImage(grey, 12))), |grey[0]|)
      == Some(QuantizeImage(grey, 12))
  {
    var img := QuantizeImage(grey, 12);
    QuantizeImageRange(grey, 12);
    assert img[0] != [] && img[0][0] <= MaxPixel(img);
    ghost var y :| 0 <= y < |img| && MaxPixel(img) in img[y];
    CompressRoundTrip(img, 26);
  }
}
