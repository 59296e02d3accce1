/**
 * The pipeline text format (src/gips_io.cpp): `Pipeline::serialize`, which
 * writes an INI-like file with a `[GIPS]` header and one section per node,
 * and `Pipeline::unserialize`, the forgiving line parser that reads it back.
 *
 * Numbers are written by an `ostream` and read by `strtof`, and node file
 * names go through `VFS::getRelPath` / `VFS::getFullPath`; all four are
 * parameters of the model (`TextCodec`). The reader works on a value
 * snapshot of the pipeline's nodes (`NodeImage`).
 *
 * The reader is modelled twice where the code has a defect: `AsWritten`
 * follows the code, `Corrected` does what the code evidently means to do.
 */
module GipsIO {
  import opened StringUtil
  import opened GipsTypes
  import opened ShaderLoader
  import opened GipsCore

  ///////////////////////////////////////////////////////////////////////////
  // Hexadecimal colours

  predicate IsHexDigit(c: char) {
    ('0' <= c <= '9') || ('a' <= c <= 'f') || ('A' <= c <= 'F')
  }

  /** `hex2int`: the value of a hexadecimal digit of either case, -1 for any other character. */
  function Hex2Int(c: char): (n: int)
    ensures -1 <= n < 16
    ensures n >= 0 <==> IsHexDigit(c)
  {
    if '0' <= c <= '9' then c as int - '0' as int
    else if 'a' <= c <= 'f' then c as int - 'a' as int + 10
    else if 'A' <= c <= 'F' then c as int - 'A' as int + 10
    else -1
  }

  /** `hex[d]` for the table "0123456789ABCDEF": the upper-case digit that `hex2int` reads back as `d`. */
  function HexDigit(d: nat): (c: char)
    requires d < 16
    ensures IsHexDigit(c) && !('a' <= c <= 'f')
    ensures Hex2Int(c) == d
  {
    if d < 10 then ('0' as int + d) as char else ('A' as int + d - 10) as char
  }

  /** The byte `floatToHexColor` writes for one channel: `int(x * 255 + 0.5)` clamped to 0..255. */
  function ColorByte(x: real): (b: nat)
    ensures b <= 255
  {
    var i := Trunc(x * 255.0 + 0.5);
    if i < 0 then 0 else if i > 255 then 255 else i
  }

  /** `ColorByte` rounds `x * 255` to the nearest byte, saturating at both ends. */
  lemma ColorByteRounds(x: real)
    ensures x * 255.0 + 0.5 >= 256.0 ==> ColorByte(x) == 255
    ensures x * 255.0 + 0.5 < 1.0 ==> ColorByte(x) == 0
    ensures 1.0 <= x * 255.0 + 0.5 < 256.0 ==>
      ColorByte(x) as real <= x * 255.0 + 0.5 < ColorByte(x) as real + 1.0
  {
  }

  /** A channel read back from a colour (`n / 255`) is written as the same byte again. */
  lemma ColorByteOfChannel(b: nat)
    requires b <= 255
    ensures ColorByte(b as real / 255.0) == b
  {
    assert (b as real / 255.0) * 255.0 + 0.5 == b as real + 0.5;
  }

  /** The two digits written for byte `b`: high nibble first. */
  function HexPair(b: nat): (s: string)
    requires b <= 255
    ensures |s| == 2
  {
    [HexDigit(b / 16), HexDigit(b % 16)]
  }

  /** The digits `floatToHexColor` writes after the '#' for the channels `xs`. */
  function HexBody(xs: seq<real>): (s: string)
    ensures |s| == 2 * |xs|
  {
    if xs == [] then []
    else HexBody(xs[..|xs| - 1]) + HexPair(ColorByte(xs[|xs| - 1]))
  }

  /** The digits of one more channel follow those already written. */
  lemma HexBodyPrefix(values: seq<real>, k: nat)
    requires k < |values|
    ensures ['#'] + HexBody(values[..k + 1]) == (['#'] + HexBody(values[..k])) + HexPair(ColorByte(values[k]))
  {
    assert values[..k + 1][..k] == values[..k];
  }

  /** Channel `i` occupies digits `2i` and `2i+1`. */
  lemma {:induction false} HexBodyAt(xs: seq<real>, i: nat)
    requires i < |xs|
    ensures HexBody(xs)[2 * i..2 * i + 2] == HexPair(ColorByte(xs[i]))
  {
    var n := |xs| - 1;
    var front := HexBody(xs[..n]);
    var last := HexPair(ColorByte(xs[n]));
    assert HexBody(xs) == front + last;
    PairOfConcat(front, last, 2 * i);
    if i < n {
      HexBodyAt(xs[..n], i);
      assert xs[..n][i] == xs[i];
    }
  }

  /** Two characters at `p` of `a + b`: from `a` when they lie in it, else `b` when it starts there. */
  lemma PairOfConcat(a: string, b: string, p: nat)
    requires |b| == 2 && p + 2 <= |a| + 2 && (p + 2 <= |a| || p == |a|)
    ensures p + 2 <= |a| ==> (a + b)[p..p + 2] == a[p..p + 2]
    ensures p == |a| ==> (a + b)[p..p + 2] == b
  {
  }

  /** One channel of `floatToHexColor`: round, then clamp to a byte. */
  method ChannelByte(x: real) returns (i: int)
    ensures i == ColorByte(x)
  {
    i := Trunc(x * 255.0 + 0.5);
    if i < 0 { i := 0; }
    if i > 255 { i := 255; }
  }

  /** The two digit writes of `floatToHexColor` for byte `b` at `pos`. */
  method WritePair(str: array<char>, pos: nat, b: nat)
    requires b <= 255 && pos + 2 <= str.Length
    modifies str
    ensures str[..pos + 2] == old(str[..pos]) + HexPair(b)
    ensures forall j :: pos + 2 <= j < str.Length ==> str[j] == old(str[j])
  {
    str[pos] := HexDigit(b / 16);
    str[pos + 1] := HexDigit(b % 16);
    assert str[..pos + 2] == old(str[..pos]) + [str[pos], str[pos + 1]];
  }

  /**
   * `floatToHexColor`: writes '#', two upper-case hex digits per channel and
   * a terminating NUL into `str`, which must hold `2 * count + 2` characters.
   */
  method FloatToHexColor(str: array<char>, values: seq<real>, count: nat)
    requires count <= |values| && 2 * count + 2 <= str.Length
    modifies str
    ensures str[..2 * count + 1] == ['#'] + HexBody(values[..count])
    ensures str[2 * count + 1] == '\0'
    ensures forall j :: 2 * count + 2 <= j < str.Length ==> str[j] == old(str[j])
  {
    str[0] := '#';
    var k := 0;
    while k < count
      invariant 0 <= k <= count
      invariant str[..2 * k + 1] == ['#'] + HexBody(values[..k])
      invariant forall j :: 2 * count + 2 <= j < str.Length ==> str[j] == old(str[j])
    {
      var i := ChannelByte(values[k]);
      WritePair(str, 2 * k + 1, i);
      HexBodyPrefix(values, k);
      k := k + 1;
    }
    ghost var written := str[..2 * count + 1];
    str[2 * count + 1] := '\0';
    assert str[..2 * count + 1] == written;
  }

  /** The channel value of the digit pair `a b`: `((hex2int(a) << 4) | hex2int(b)) / 255`. */
  function PairValue(a: char, b: char): real {
    (16 * Hex2Int(a) + Hex2Int(b)) as real / 255.0
  }

  predicate AllHex(s: string) {
    forall i :: 0 <= i < |s| ==> IsHexDigit(s[i])
  }

  /** The outcome of the hex-colour loop: the channels read and the text left over, or a failure. */
  datatype HexScan = HexBad | HexOk(xs: seq<real>, rest: string)

  /** `xs` put in front of the channels of a scan that went on after them. */
  function Prepend(xs: seq<real>, r: HexScan): HexScan {
    match r
    case HexBad => HexBad
    case HexOk(ys, rest) => HexOk(xs + ys, rest)
  }

  /**
   * The hex-colour loop of `unserialize`, started at `v` with room for
   * `room` more channels: it fails on a lone digit, on a pair that is not
   * two hex digits, and on an empty `v` (the lone '#', where the code reads
   * the character after the terminator and fails either way); it stops when
   * the text ends or `room` channels are read.
   */
  function HexScanFrom(v: string, room: nat): HexScan
    requires room >= 1
    decreases room
  {
    if |v| < 2 || Hex2Int(v[0]) < 0 || Hex2Int(v[1]) < 0 then HexBad
    else if |v| == 2 || room == 1 then HexOk([PairValue(v[0], v[1])], v[2..])
    else Prepend([PairValue(v[0], v[1])], HexScanFrom(v[2..], room - 1))
  }

  /**
   * A successful colour scan reads one to `room` pairs of hex digits from
   * the front of `v`, one channel per pair, and stops early only at the end
   * of the text.
   */
  lemma {:induction false} HexScanShape(v: string, room: nat)
    requires room >= 1
    decreases room
    ensures var r := HexScanFrom(v, room);
      r.HexOk? ==> 1 <= |r.xs| <= room && 2 * |r.xs| <= |v| && r.rest == v[2 * |r.xs|..]
    ensures var r := HexScanFrom(v, room); r.HexOk? && r.rest != [] ==> |r.xs| == room
    ensures var r := HexScanFrom(v, room); r.HexOk? ==> forall i :: 0 <= i < 2 * |r.xs| ==> IsHexDigit(v[i])
    ensures var r := HexScanFrom(v, room);
      r.HexOk? ==> forall i :: 0 <= i < |r.xs| ==> r.xs[i] == PairValue(v[2 * i], v[2 * i + 1])
  {
    if |v| < 2 || Hex2Int(v[0]) < 0 || Hex2Int(v[1]) < 0 || |v| == 2 || room == 1 {
    } else {
      var w := v[2..];
      HexScanShape(w, room - 1);
      var t := HexScanFrom(w, room - 1);
      if t.HexOk? {
        var r := HexScanFrom(v, room);
        assert r.xs == [PairValue(v[0], v[1])] + t.xs;
        forall i | 0 <= i < |r.xs|
          ensures r.xs[i] == PairValue(v[2 * i], v[2 * i + 1])
        {
          if i > 0 {
            assert r.xs[i] == t.xs[i - 1];
            assert w[2 * (i - 1)] == v[2 * i] && w[2 * (i - 1) + 1] == v[2 * i + 1];
          }
        }
        forall i | 0 <= i < 2 * |r.xs|
          ensures IsHexDigit(v[i])
        {
          if i >= 2 {
            assert v[i] == w[i - 2];
          }
        }
        assert r.rest == t.rest == w[2 * |t.xs|..] == v[2 * |r.xs|..];
      }
    }
  }

  /** Whole digit pairs, no more than `room` of them, are read to the end. */
  lemma {:induction false} HexScanComplete(v: string, room: nat)
    requires room >= 1 && 2 <= |v| <= 2 * room && |v| % 2 == 0 && AllHex(v)
    ensures HexScanFrom(v, room).HexOk? && HexScanFrom(v, room).rest == []
  {
    if |v| > 2 {
      HexScanComplete(v[2..], room - 1);
    }
  }

  /**
   * A colour value after its '#': accepted exactly when it is 6 or 8 hex
   * digits, giving one channel per digit pair.
   */
  function HexColor(v: string): (r: Option<seq<real>>)
    ensures r.Some? <==> (|v| == 6 || |v| == 8) && AllHex(v)
    ensures r.Some? ==> |r.value| == |v| / 2
    ensures r.Some? ==> forall i :: 0 <= i < |r.value| ==> r.value[i] == PairValue(v[2 * i], v[2 * i + 1])
  {
    HexScanShape(v, 4);
    if (|v| == 6 || |v| == 8) && AllHex(v) then HexScanComplete(v, 4); Colour(HexScanFrom(v, 4))
    else Colour(HexScanFrom(v, 4))
  }

  /** A finished colour scan: three or four channels and nothing left. */
  function Colour(r: HexScan): Option<seq<real>> {
    match r
    case HexBad => None
    case HexOk(xs, rest) => if |xs| < 3 || rest != [] then None else Some(xs)
  }

  /** One step of the colour loop: a valid pair, then the rest (if any room and text is left). */
  lemma HexScanStep(w: string, room: nat)
    requires room >= 1 && |w| >= 2 && Hex2Int(w[0]) >= 0 && Hex2Int(w[1]) >= 0
    ensures HexScanFrom(w, room) ==
      Prepend([PairValue(w[0], w[1])], if |w| == 2 || room == 1 then HexOk([], w[2..]) else HexScanFrom(w[2..], room - 1))
  {
    if |w| == 2 || room == 1 {
      assert [PairValue(w[0], w[1])] + [] == [PairValue(w[0], w[1])];
    }
  }

  lemma PrependTwice(xs: seq<real>, ys: seq<real>, r: HexScan)
    ensures Prepend(xs, Prepend(ys, r)) == Prepend(xs + ys, r)
  {
    if r.HexOk? {
      assert xs + (ys + r.xs) == (xs + ys) + r.xs;
    }
  }

  /** The colour loop fails on a lone digit or a pair that is not two hex digits. */
  lemma ScanFails(w: string, room: nat)
    requires room >= 1 && (|w| < 2 || Hex2Int(w[0]) < 0 || Hex2Int(w[1]) < 0)
    ensures HexScanFrom(w, room) == HexBad
  {
  }

  /** The colour loop after one more valid pair at `pos`. */
  lemma ScanAdvance(v: string, xs: seq<real>, pos: nat)
    requires pos == 2 * |xs| && |xs| < 4 && pos + 1 < |v|
    requires Hex2Int(v[pos]) >= 0 && Hex2Int(v[pos + 1]) >= 0
    requires HexScanFrom(v, 4) == Prepend(xs, HexScanFrom(v[pos..], 4 - |xs|))
    ensures var ys := xs + [PairValue(v[pos], v[pos + 1])];
      HexScanFrom(v, 4) ==
        if pos + 2 == |v| || |ys| == 4 then HexOk(ys, v[pos + 2..]) else Prepend(ys, HexScanFrom(v[pos + 2..], 4 - |ys|))
  {
    var x := PairValue(v[pos], v[pos + 1]);
    HexScanStep(v[pos..], 4 - |xs|);
    assert v[pos..][2..] == v[pos + 2..];
    PrependTwice(xs, [x], if pos + 2 == |v| || |xs| == 3 then HexOk([], v[pos + 2..]) else HexScanFrom(v[pos + 2..], 3 - |xs|));
    assert xs + [x] + [] == xs + [x];
  }

  /** The loop of `unserialize` over a colour, proved to compute `HexScanFrom(v, 4)`. */
  method ScanHexColor(v: string) returns (r: HexScan)
    ensures r == HexScanFrom(v, 4)
  {
    var xs: seq<real> := [];
    var pos := 0;
    assert v[0..] == v;
    while true
      invariant pos == 2 * |xs| && |xs| < 4 && pos <= |v|
      invariant HexScanFrom(v, 4) == Prepend(xs, HexScanFrom(v[pos..], 4 - |xs|))
      decreases 4 - |xs|
    {
      if pos + 1 >= |v| {
        ScanFails(v[pos..], 4 - |xs|);
        return HexBad;
      }
      var hi := Hex2Int(v[pos]);
      var lo := Hex2Int(v[pos + 1]);
      if hi < 0 || lo < 0 {
        ScanFails(v[pos..], 4 - |xs|);
        return HexBad;
      }
      var x := PairValue(v[pos], v[pos + 1]);
      ScanAdvance(v, xs, pos);
      xs := xs + [x];
      pos := pos + 2;
      if pos == |v| || |xs| == 4 {
        return HexOk(xs, v[pos..]);
      }
    }
  }

  /** The channels a colour is read back as: each written byte over 255. */
  function Channels(xs: seq<real>): (ys: seq<real>)
    ensures |ys| == |xs|
  {
    seq(|xs|, i requires 0 <= i < |xs| => ColorByte(xs[i]) as real / 255.0)
  }

  /** Digit `j` of a written colour: the high nibble of channel `j / 2` at even `j`, the low one at odd `j`. */
  lemma HexBodyChar(xs: seq<real>, j: nat)
    requires j < 2 * |xs|
    ensures var b := ColorByte(xs[j / 2]);
      HexBody(xs)[j] == if j % 2 == 0 then HexDigit(b / 16) else HexDigit(b % 16)
  {
    var i := j / 2;
    HexBodyAt(xs, i);
    assert HexBody(xs)[j] == HexBody(xs)[2 * i..2 * i + 2][j - 2 * i];
  }

  /** The pair written for byte `b` reads back as `b / 255`. */
  lemma PairOfByte(b: nat)
    requires b <= 255
    ensures PairValue(HexDigit(b / 16), HexDigit(b % 16)) == b as real / 255.0
  {
    assert 16 * (b / 16) + b % 16 == b;
  }

  /** Every character after the '#' of a written colour is a hex digit. */
  lemma HexBodyDigits(xs: seq<real>)
    ensures AllHex(HexBody(xs))
  {
    var body := HexBody(xs);
    forall j | 0 <= j < |body|
      ensures IsHexDigit(body[j])
    {
      HexBodyChar(xs, j);
    }
  }

  /** Digit pair `i` of a written colour reads back as channel `i`'s byte over 255. */
  lemma HexBodyPair(xs: seq<real>, i: nat)
    requires i < |xs|
    ensures PairValue(HexBody(xs)[2 * i], HexBody(xs)[2 * i + 1]) == ColorByte(xs[i]) as real / 255.0
  {
    var body := HexBody(xs);
    HexBodyAt(xs, i);
    assert body[2 * i] == body[2 * i..2 * i + 2][0] && body[2 * i + 1] == body[2 * i..2 * i + 2][1];
    PairOfByte(ColorByte(xs[i]));
  }

  /** Every digit pair of a written colour reads back as its channel. */
  lemma ReadBackChannels(xs: seq<real>)
    ensures forall i :: 0 <= i < |xs| ==> PairValue(HexBody(xs)[2 * i], HexBody(xs)[2 * i + 1]) == Channels(xs)[i]
  {
    forall i | 0 <= i < |xs|
      ensures PairValue(HexBody(xs)[2 * i], HexBody(xs)[2 * i + 1]) == Channels(xs)[i]
    {
      HexBodyPair(xs, i);
    }
  }

  /** A colour written by `floatToHexColor` (3 or 4 channels) reads back as its bytes over 255. */
  lemma HexRoundTrip(xs: seq<real>)
    requires |xs| == 3 || |xs| == 4
    ensures HexColor(HexBody(xs)) == Some(Channels(xs))
  {
    var body := HexBody(xs);
    HexBodyDigits(xs);
    ReadBackChannels(xs);
    var ys := HexColor(body).value;
    assert forall i :: 0 <= i < |xs| ==> ys[i] == Channels(xs)[i];
    assert ys == Channels(xs);
  }

  /** Reading a written colour and writing it again reproduces the text. */
  lemma HexRewrite(xs: seq<real>)
    requires |xs| == 3 || |xs| == 4
    ensures HexBody(Channels(xs)) == HexBody(xs)
  {
    var ys := Channels(xs);
    var a := HexBody(ys);
    var b := HexBody(xs);
    forall i | 0 <= i < |xs|
      ensures a[2 * i..2 * i + 2] == b[2 * i..2 * i + 2]
    {
      HexBodyAt(ys, i);
      HexBodyAt(xs, i);
      ChannelRewrites(xs, i);
    }
    SamePairs(a, b, |xs|);
  }

  /** A channel read back from its written byte writes that byte again. */
  lemma ChannelRewrites(xs: seq<real>, i: nat)
    requires i < |xs|
    ensures ColorByte(Channels(xs)[i]) == ColorByte(xs[i])
  {
    ColorByteOfChannel(ColorByte(xs[i]));
  }

  /** Two texts of `n` digit pairs that agree pair by pair are equal. */
  lemma SamePairs(a: string, b: string, n: nat)
    requires |a| == 2 * n && |b| == 2 * n
    requires forall i :: 0 <= i < n ==> a[2 * i..2 * i + 2] == b[2 * i..2 * i + 2]
    ensures a == b
  {
    forall j | 0 <= j < |a|
      ensures a[j] == b[j]
    {
      var i := j / 2;
      assert a[j] == a[2 * i..2 * i + 2][j - 2 * i];
      assert b[j] == b[2 * i..2 * i + 2][j - 2 * i];
    }
  }

  ///////////////////////////////////////////////////////////////////////////
  // Numbers and the outside helpers

  /**
   * The helpers the text format relies on: `VFS::getRelPath`,
   * `VFS::getFullPath` (none when it cannot resolve the name), `ostream`
   * output of a `float`, and `strtof` (the value and how many characters it
   * consumed).
   */
  datatype TextCodec = TextCodec(
    relPath: string -> string,
    fullPath: string -> Option<string>,
    show: real -> string,
    scan: string -> (real, nat))

  /** `isnumsep`: a comma or whitespace. */
  predicate IsNumSep(c: char) {
    c == ',' || IsSpace(c)
  }

  /** How far `strtof` moves its end pointer; it never passes the terminator. */
  function Consumed(io: TextCodec, s: string): (n: nat)
    ensures n <= |s|
  {
    var c := io.scan(s).1;
    if c <= |s| then c else |s|
  }

  /** `s` after its leading separators. */
  function SkipSeps(s: string): (r: string)
    ensures |r| <= |s|
    ensures r == [] || !IsNumSep(r[0])
  {
    if s == [] || !IsNumSep(s[0]) then s else SkipSeps(s[1..])
  }

  /** The outcome of the number-list loop: the numbers read and the text left over, or the text it failed at. */
  datatype NumScan = NumOk(xs: seq<real>, rest: string) | NumBad(at: string)

  /**
   * The number-list loop of `unserialize`, started at a non-empty `value`
   * with room for `room` more numbers: each number must be followed by the
   * end or a separator, and separators are skipped; it stops at the end of
   * the text or when `room` numbers are read.
   */
  function NumberList(io: TextCodec, value: string, room: nat): (r: NumScan)
    requires room >= 1
    decreases room
    ensures r.NumOk? ==> 1 <= |r.xs| <= room && (r.rest != [] ==> |r.xs| == room)
    ensures r.NumOk? ==> r.rest == [] || !IsNumSep(r.rest[0])
  {
    var x := io.scan(value).0;
    var end := value[Consumed(io, value)..];
    if end != [] && !IsNumSep(end[0]) then NumBad(value)
    else
      var next := SkipSeps(end);
      if next == [] || room == 1 then NumOk([x], next)
      else match NumberList(io, next, room - 1)
        case NumBad(at) => NumBad(at)
        case NumOk(xs, rest) => NumOk([x] + xs, rest)
  }

  /** One step of the number-list loop: a number followed by the end or a separator, then the rest. */
  lemma NumberListStep(io: TextCodec, w: string, room: nat)
    requires room >= 1
    requires var end := w[Consumed(io, w)..]; end == [] || IsNumSep(end[0])
    ensures var next := SkipSeps(w[Consumed(io, w)..]);
      NumberList(io, w, room) ==
        Prepended([io.scan(w).0], if next == [] || room == 1 then NumOk([], next) else NumberList(io, next, room - 1))
  {
    var next := SkipSeps(w[Consumed(io, w)..]);
    if next == [] || room == 1 {
      assert [io.scan(w).0] + [] == [io.scan(w).0];
    }
  }

  /** Skipping separators one at a time, as the loop of `unserialize` does. */
  method SkipSeparators(s: string) returns (p: nat)
    ensures p <= |s| && s[p..] == SkipSeps(s)
  {
    p := 0;
    while p < |s| && IsNumSep(s[p])
      invariant 0 <= p <= |s| && SkipSeps(s) == SkipSeps(s[p..])
    {
      assert s[p..][1..] == s[p + 1..];
      p := p + 1;
    }
  }

  /** The loop invariant of `ScanNumbers` carried over one number that is followed by more text. */
  lemma NumberLoopStep(io: TextCodec, value: string, xs: seq<real>, v: string)
    requires |xs| < 3
    requires NumberList(io, value, 4) == Prepended(xs, NumberList(io, v, 4 - |xs|))
    requires var end := v[Consumed(io, v)..]; end == [] || IsNumSep(end[0])
    requires SkipSeps(v[Consumed(io, v)..]) != []
    ensures var next := SkipSeps(v[Consumed(io, v)..]); var ys := xs + [io.scan(v).0];
      NumberList(io, value, 4) == Prepended(ys, NumberList(io, next, 4 - |ys|))
  {
    var next := SkipSeps(v[Consumed(io, v)..]);
    var room := 4 - |xs|;
    var rest := NumberList(io, next, room - 1);
    assert NumberList(io, v, room) == Prepended([io.scan(v).0], rest) by {
      NumberListStep(io, v, room);
    }
    PrependedChain(NumberList(io, value, 4), NumberList(io, v, room), rest, xs, io.scan(v).0);
    assert 4 - |xs + [io.scan(v).0]| == room - 1;
  }

  /** A turn of the number-list loop that finds no separator after the number: the value is bad there. */
  lemma NumberLoopBad(io: TextCodec, value: string, xs: seq<real>, v: string)
    requires |xs| < 4
    requires NumberList(io, value, 4) == Prepended(xs, NumberList(io, v, 4 - |xs|))
    requires var end := v[Consumed(io, v)..]; end != [] && !IsNumSep(end[0])
    ensures NumberList(io, value, 4) == NumBad(v)
  {
    NumberListBad(io, v, 4 - |xs|);
  }

  /** The last turn of the number-list loop: the text ends, or the fourth number was read. */
  lemma NumberLoopLast(io: TextCodec, value: string, xs: seq<real>, v: string)
    requires |xs| < 4
    requires NumberList(io, value, 4) == Prepended(xs, NumberList(io, v, 4 - |xs|))
    requires var end := v[Consumed(io, v)..]; end == [] || IsNumSep(end[0])
    requires SkipSeps(v[Consumed(io, v)..]) == [] || |xs| == 3
    ensures NumberList(io, value, 4) == NumOk(xs + [io.scan(v).0], SkipSeps(v[Consumed(io, v)..]))
  {
    var x := io.scan(v).0;
    var next := SkipSeps(v[Consumed(io, v)..]);
    NumberListStep(io, v, 4 - |xs|);
    PrependedTwice(xs, [x], NumOk([], next));
    assert xs + [x] + [] == xs + [x];
  }

  /** Two prefixes put in front one after the other. */
  lemma PrependedChain(a: NumScan, b: NumScan, r: NumScan, xs: seq<real>, x: real)
    requires a == Prepended(xs, b) && b == Prepended([x], r)
    ensures a == Prepended(xs + [x], r)
  {
    PrependedTwice(xs, [x], r);
  }

  /** The number-list loop, proved to compute `NumberList(io, value, 4)`. */
  method ScanNumbers(io: TextCodec, value: string) returns (r: NumScan)
    ensures r == NumberList(io, value, 4)
  {
    var xs: seq<real> := [];
    var v := value;
    PrependedNothing(NumberList(io, v, 4));
    while true
      invariant |xs| < 4
      invariant NumberList(io, value, 4) == Prepended(xs, NumberList(io, v, 4 - |xs|))
      decreases 4 - |xs|
    {
      var x := io.scan(v).0;
      var end := v[Consumed(io, v)..];
      if end != [] && !IsNumSep(end[0]) {
        NumberLoopBad(io, value, xs, v);
        return NumBad(v);
      }
      var p := SkipSeparators(end);
      var next := end[p..];
      if next == [] || |xs| == 3 {
        NumberLoopLast(io, value, xs, v);
        return NumOk(xs + [x], next);
      }
      NumberLoopStep(io, value, xs, v);
      v := next;
      xs := xs + [x];
    }
  }

  /** A number followed by anything but the end or a separator is a bad value. */
  lemma NumberListBad(io: TextCodec, w: string, room: nat)
    requires room >= 1
    requires var end := w[Consumed(io, w)..]; end != [] && !IsNumSep(end[0])
    ensures NumberList(io, w, room) == NumBad(w)
  {
  }

  /** `xs` put in front of the numbers of a scan that went on after them. */
  function Prepended(xs: seq<real>, r: NumScan): NumScan {
    match r
    case NumBad(at) => NumBad(at)
    case NumOk(ys, rest) => NumOk(xs + ys, rest)
  }

  lemma PrependedNothing(r: NumScan)
    ensures Prepended([], r) == r
  {
    if r.NumOk? {
      assert [] + r.xs == r.xs;
    }
  }

  lemma PrependedTwice(xs: seq<real>, ys: seq<real>, r: NumScan)
    ensures Prepended(xs, Prepended(ys, r)) == Prepended(xs + ys, r)
  {
    if r.NumOk? {
      assert xs + (ys + r.xs) == (xs + ys) + r.xs;
    }
  }

  ///////////////////////////////////////////////////////////////////////////
  // serialize

  /** The parts of a node the text format writes or reads. */
  datatype NodeImage = NodeImage(filename: string, enabled: bool, errors: seq<Diagnostic>, params: seq<Parameter>)

  function Image(n: Node): NodeImage
    reads n
  {
    NodeImage(n.filename, n.enabled, n.errors, n.params)
  }

  /** The nodes of a pipeline, as values. */
  function Snapshot(ns: seq<Node>): (r: seq<NodeImage>)
    reads ns
    ensures |r| == |ns|
    ensures forall i :: 0 <= i < |ns| ==> r[i] == Image(ns[i])
  {
    if ns == [] then [] else Snapshot(ns[..|ns| - 1]) + [Image(ns[|ns| - 1])]
  }

  /** How many numbers (or colour channels) `serialize` writes for a parameter type. */
  function SerialArity(t: ParameterType): (n: nat)
    ensures 1 <= n <= 4
    ensures t != Angle ==> n == UniformArity(t)
    ensures t == Angle ==> n == 1
  {
    match t
    case Value | Toggle | Angle => 1
    case Value2 => 2
    case Value3 | RGB => 3
    case Value4 | RGBA => 4
  }

  predicate IsColor(t: ParameterType) {
    t == RGB || t == RGBA
  }

  /** Numbers as `serialize` writes them: separated by ", ". */
  function NumbersText(xs: seq<real>, io: TextCodec): string
    requires |xs| >= 1
  {
    if |xs| == 1 then io.show(xs[0]) else io.show(xs[0]) + ", " + NumbersText(xs[1..], io)
  }

  /** The value part of a parameter line: the first `SerialArity` slots as numbers, or a hex colour. */
  function ValueText(p: Parameter, io: TextCodec): string {
    var xs := p.value[..SerialArity(p.ptype)];
    if IsColor(p.ptype) then ['#'] + HexBody(xs) else NumbersText(xs, io)
  }

  function ParamLine(p: Parameter, io: TextCodec): string {
    p.name + " = " + ValueText(p, io)
  }

  /** One `name = value` line per parameter, in order. */
  function ParamLines(ps: seq<Parameter>, io: TextCodec): (ls: seq<string>)
    ensures |ls| == |ps|
  {
    seq(|ps|, j requires 0 <= j < |ps| => ParamLine(ps[j], io))
  }

  const ShowLine: string := ".show = 1"
  const DisabledLine: string := ".enabled = 0"

  /** The `[GIPS]` header; `.show = 1` marks show index 0 (the input image). */
  function HeaderLines(showIndex: int): seq<string> {
    ["[GIPS]", "version = 1"] + (if showIndex == 0 then [ShowLine] else [])
  }

  /** The section of node `i` of `count`: an empty line, the relative path in brackets, pseudo-keys, parameters. */
  function NodeLines(showIndex: int, i: nat, count: nat, node: NodeImage, io: TextCodec): seq<string> {
    ["", "[" + io.relPath(node.filename) + "]"]
      + (if showIndex == i + 1 && i + 1 < count then [ShowLine] else [])
      + (if !node.enabled then [DisabledLine] else [])
      + ParamLines(node.params, io)
  }

  /** The sections of the first `k` nodes. */
  function NodesLines(showIndex: int, ns: seq<NodeImage>, k: nat, io: TextCodec): seq<string>
    requires k <= |ns|
  {
    if k == 0 then [] else NodesLines(showIndex, ns, k - 1, io) + NodeLines(showIndex, k - 1, |ns|, ns[k - 1], io)
  }

  /** Every line `serialize` writes, in order. */
  function SerializeLines(showIndex: int, ns: seq<NodeImage>, io: TextCodec): seq<string> {
    HeaderLines(showIndex) + NodesLines(showIndex, ns, |ns|, io)
  }

  /** Lines, each followed by `eol`. */
  function Join(ls: seq<string>, eol: string): string {
    if ls == [] then [] else ls[0] + eol + Join(ls[1..], eol)
  }

  lemma {:induction false} JoinAppend(a: seq<string>, b: seq<string>, eol: string)
    ensures Join(a + b, eol) == Join(a, eol) + Join(b, eol)
  {
    if a != [] {
      assert (a + b)[0] == a[0] && (a + b)[1..] == a[1..] + b;
      JoinAppend(a[1..], b, eol);
      calc {
        Join(a + b, eol);
        a[0] + eol + Join(a[1..] + b, eol);
        a[0] + eol + (Join(a[1..], eol) + Join(b, eol));
        Join(a, eol) + Join(b, eol);
      }
    } else {
      assert a + b == b;
    }
  }

  const CRLF: string := "\r\n"

  /** The serializer's output. */
  function SerializeText(showIndex: int, ns: seq<NodeImage>, io: TextCodec): string {
    Join(SerializeLines(showIndex, ns, io), CRLF)
  }

  /** `<< x << ", "` in front of the numbers text of `xs` is the numbers text of `[x] + xs`. */
  lemma AppendNumber(text: string, x: real, xs: seq<real>, io: TextCodec)
    requires |xs| >= 1
    ensures text + io.show(x) + ", " + NumbersText(xs, io) == text + NumbersText([x] + xs, io)
  {
    assert ([x] + xs)[1..] == xs;
    Assoc4(text, io.show(x), ", ", NumbersText(xs, io));
  }

  /** `f << a << ", " << b`, as the `Value2` case writes it. */
  lemma NumbersText2(text: string, a: real, b: real, io: TextCodec)
    ensures text + io.show(a) + ", " + io.show(b) == text + NumbersText([a, b], io)
  {
    AppendNumber(text, a, [b], io);
    assert [a] + [b] == [a, b];
  }

  /** Three numbers, as the `Value3` case writes them. */
  lemma NumbersText3(text: string, a: real, b: real, c: real, io: TextCodec)
    ensures text + io.show(a) + ", " + io.show(b) + ", " + io.show(c) == text + NumbersText([a, b, c], io)
  {
    NumbersText2(text + io.show(a) + ", ", b, c, io);
    AppendNumber(text, a, [b, c], io);
    assert [a] + [b, c] == [a, b, c];
  }

  /** Four numbers, as the `Value4` case writes them. */
  lemma NumbersText4(text: string, a: real, b: real, c: real, d: real, io: TextCodec)
    ensures text + io.show(a) + ", " + io.show(b) + ", " + io.show(c) + ", " + io.show(d)
         == text + NumbersText([a, b, c, d], io)
  {
    NumbersText3(text + io.show(a) + ", ", b, c, d, io);
    AppendNumber(text, a, [b, c, d], io);
    assert [a] + [b, c, d] == [a, b, c, d];
  }

  /** A colour value through a `char c[8]` or `char c[10]` buffer. */
  method AppendColor(text: string, v: Vec4, count: nat) returns (t: string)
    requires count == 3 || count == 4
    ensures t == text + (['#'] + HexBody(v[..count]))
  {
    var c := new char[2 * count + 2];
    FloatToHexColor(c, v, count);
    t := text + c[..2 * count + 1];
  }

  /** The value part of one parameter line, as `serialize`'s switch writes it. */
  method AppendValue(text: string, p: Parameter, io: TextCodec) returns (t: string)
    ensures t == text + ValueText(p, io)
  {
    var v := p.value;
    ValueTextCases(p, io);
    match p.ptype
    case Value | Toggle | Angle =>
      t := text + io.show(v[0]);
    case Value2 =>
      NumbersText2(text, v[0], v[1], io);
      t := text + io.show(v[0]) + ", " + io.show(v[1]);
    case Value3 =>
      NumbersText3(text, v[0], v[1], v[2], io);
      t := text + io.show(v[0]) + ", " + io.show(v[1]) + ", " + io.show(v[2]);
    case Value4 =>
      NumbersText4(text, v[0], v[1], v[2], v[3], io);
      t := text + io.show(v[0]) + ", " + io.show(v[1]) + ", " + io.show(v[2]) + ", " + io.show(v[3]);
    case RGB =>
      t := AppendColor(text, v, 3);
    case RGBA =>
      t := AppendColor(text, v, 4);
  }

  /** The value text of each parameter type, slot by slot. */
  lemma ValueTextCases(p: Parameter, io: TextCodec)
    ensures p.ptype == Value || p.ptype == Toggle || p.ptype == Angle ==> ValueText(p, io) == io.show(p.value[0])
    ensures p.ptype == Value2 ==> ValueText(p, io) == NumbersText([p.value[0], p.value[1]], io)
    ensures p.ptype == Value3 ==> ValueText(p, io) == NumbersText([p.value[0], p.value[1], p.value[2]], io)
    ensures p.ptype == Value4 ==> ValueText(p, io) == NumbersText([p.value[0], p.value[1], p.value[2], p.value[3]], io)
    ensures p.ptype == RGB ==> ValueText(p, io) == ['#'] + HexBody(p.value[..3])
    ensures p.ptype == RGBA ==> ValueText(p, io) == ['#'] + HexBody(p.value[..4])
  {
    var v := p.value;
    assert v[..1] == [v[0]];
    assert v[..2] == [v[0], v[1]];
    assert v[..3] == [v[0], v[1], v[2]];
    assert v[..4] == [v[0], v[1], v[2], v[3]];
  }

  lemma Assoc3(a: string, b: string, c: string)
    ensures a + b + c == a + (b + c)
  {}

  lemma Assoc4(a: string, b: string, c: string, d: string)
    ensures a + b + c + d == a + (b + c + d)
  {}

  lemma JoinSnoc(ls: seq<string>, l: string, eol: string)
    ensures Join(ls + [l], eol) == Join(ls, eol) + l + eol
  {
    JoinAppend(ls, [l], eol);
    assert [l][1..] == [];
  }

  lemma ParamLinesSnoc(ps: seq<Parameter>, k: nat, io: TextCodec)
    requires k < |ps|
    ensures ParamLines(ps[..k + 1], io) == ParamLines(ps[..k], io) + [ParamLine(ps[k], io)]
  {
    var a := ParamLines(ps[..k + 1], io);
    var b := ParamLines(ps[..k], io) + [ParamLine(ps[k], io)];
    forall j | 0 <= j < k + 1
      ensures a[j] == b[j]
    {
      if j < k {
        assert ps[..k + 1][j] == ps[..k][j];
      }
    }
  }

  lemma HeaderText(showIndex: int)
    ensures Join(HeaderLines(showIndex), CRLF)
         == "[GIPS]\r\nversion = 1\r\n" + (if showIndex == 0 then ".show = 1\r\n" else "")
  {
    var two := ["[GIPS]", "version = 1"];
    JoinSnoc(["[GIPS]"], "version = 1", CRLF);
    JoinSnoc([], "[GIPS]", CRLF);
    assert [] + ["[GIPS]"] == ["[GIPS]"] && ["[GIPS]"] + ["version = 1"] == two;
    assert Join(two, CRLF) == "[GIPS]\r\nversion = 1\r\n";
    if showIndex == 0 {
      JoinSnoc(two, ShowLine, CRLF);
    } else {
      assert HeaderLines(showIndex) == two;
    }
  }

  lemma NodeHeadText(text: string, rel: string)
    ensures text + "\r\n[" + rel + "]\r\n" == text + Join(["", "[" + rel + "]"], CRLF)
  {
    JoinSnoc([""], "[" + rel + "]", CRLF);
    JoinSnoc([], "", CRLF);
    assert [] + [""] == [""] && [""] + ["[" + rel + "]"] == ["", "[" + rel + "]"];
    assert Join(["", "[" + rel + "]"], CRLF) == "\r\n[" + rel + "]\r\n";
    Assoc4(text, "\r\n[", rel, "]\r\n");
  }

  /** One parameter: its name, " = ", then the value. */
  method AppendParam(text: string, p: Parameter, io: TextCodec) returns (t: string)
    ensures t == text + ParamLine(p, io)
  {
    t := text + p.name + " = ";
    t := AppendValue(t, p, io);
  }

  /** The parameter loop of `serialize`: one `name = value` line per parameter. */
  method AppendParams(text: string, ps: seq<Parameter>, io: TextCodec) returns (t: string)
    ensures t == text + Join(ParamLines(ps, io), CRLF)
  {
    t := text;
    for k := 0 to |ps|
      invariant t == text + Join(ParamLines(ps[..k], io), CRLF)
    {
      t := AppendParam(t, ps[k], io);
      t := t + CRLF;
      ParamLinesSnoc(ps, k, io);
      JoinSnoc(ParamLines(ps[..k], io), ParamLine(ps[k], io), CRLF);
      Assoc4(text, Join(ParamLines(ps[..k], io), CRLF), ParamLine(ps[k], io), CRLF);
    }
    assert ps[..|ps|] == ps;
  }

  /** One node's section: path header, `.show`/`.enabled` pseudo-keys, parameters. */
  method AppendNode(text: string, showIndex: int, i: nat, count: nat, node: Node, io: TextCodec) returns (t: string)
    ensures t == text + Join(NodeLines(showIndex, i, count, Image(node), io), CRLF)
  {
    var rel := io.relPath(node.filename);
    t := text + "\r\n[" + rel + "]\r\n";
    NodeHeadText(text, rel);
    ghost var ls := ["", "[" + rel + "]"];
    if showIndex == i + 1 && i + 1 < count {
      t := t + ".show = 1\r\n";
      AppendLine(text, ls, ShowLine, ".show = 1\r\n");
      ls := ls + [ShowLine];
    }
    if !node.enabled {
      t := t + ".enabled = 0\r\n";
      AppendLine(text, ls, DisabledLine, ".enabled = 0\r\n");
      ls := ls + [DisabledLine];
    }
    NodeOpeningLines(showIndex, i, count, Image(node), io, ls);
    t := AppendParams(t, node.params, io);
    JoinTail(text, ls, ParamLines(node.params, io));
  }

  /** Appending `lit`, which is `l` and a line end, adds the line `l`. */
  lemma AppendLine(text: string, ls: seq<string>, l: string, lit: string)
    requires (l == ShowLine && lit == ".show = 1\r\n") || (l == DisabledLine && lit == ".enabled = 0\r\n")
    ensures text + Join(ls, CRLF) + lit == text + Join(ls + [l], CRLF)
  {
    JoinSnoc(ls, l, CRLF);
    assert lit == l + CRLF;
    Assoc4(text, Join(ls, CRLF), l, CRLF);
  }

  /** The opening lines of a node section, built up as `AppendNode` writes them. */
  lemma NodeOpeningLines(showIndex: int, i: nat, count: nat, node: NodeImage, io: TextCodec, ls: seq<string>)
    requires ls == ["", "[" + io.relPath(node.filename) + "]"]
      + (if showIndex == i + 1 && i + 1 < count then [ShowLine] else [])
      + (if !node.enabled then [DisabledLine] else [])
    ensures NodeLines(showIndex, i, count, node, io) == ls + ParamLines(node.params, io)
  {
  }

  lemma JoinTail(text: string, ls: seq<string>, ms: seq<string>)
    ensures text + Join(ls, CRLF) + Join(ms, CRLF) == text + Join(ls + ms, CRLF)
  {
    JoinAppend(ls, ms, CRLF);
  }

  /**
   * `Pipeline::serialize`: the `[GIPS]` header, then one section per node,
   * every line ended by CR LF.
   */
  method Serialize(p: Pipeline, showIndex: int, io: TextCodec) returns (text: string)
    ensures text == SerializeText(showIndex, Snapshot(p.nodes), io)
  {
    var ns := p.nodes;
    ghost var img := Snapshot(ns);
    text := "[GIPS]\r\nversion = 1\r\n";
    if showIndex == 0 {
      text := text + ".show = 1\r\n";
    }
    HeaderText(showIndex);
    ghost var header := Join(HeaderLines(showIndex), CRLF);
    for nodeIndex := 0 to |ns|
      invariant text == header + Join(NodesLines(showIndex, img, nodeIndex, io), CRLF)
    {
      text := AppendNode(text, showIndex, nodeIndex, |ns|, ns[nodeIndex], io);
      JoinAppend(NodesLines(showIndex, img, nodeIndex, io), NodeLines(showIndex, nodeIndex, |ns|, img[nodeIndex], io), CRLF);
      Assoc3(header, Join(NodesLines(showIndex, img, nodeIndex, io), CRLF), Join(NodeLines(showIndex, nodeIndex, |ns|, img[nodeIndex], io), CRLF));
    }
    JoinAppend(HeaderLines(showIndex), NodesLines(showIndex, img, |ns|, io), CRLF);
  }

  ///////////////////////////////////////////////////////////////////////////
  // unserialize: line splitting

  /**
   * Two readings of `unserialize`: the code as written, and the code with
   * its defects repaired (a bare LF ending a line, a key with no blank
   * before '=', the empty-value message, a bad value before the first node
   * section, and `.show 0`), each shown by an `AsWritten` lemma below.
   */
  datatype Reading = AsWritten | Corrected

  /** The blanks skipped at the start of a line (space and tab only). */
  predicate IsBlank(c: char) {
    c == ' ' || c == '\t'
  }

  function LeadBlanks(s: string): (n: nat)
    ensures n <= |s|
    ensures forall j :: 0 <= j < n ==> IsBlank(s[j])
    ensures n < |s| ==> !IsBlank(s[n])
  {
    if s == [] || !IsBlank(s[0]) then 0 else LeadBlanks(s[1..]) + 1
  }

  /** The first position of `c`, or `|s|` when there is none. */
  function IndexOf(s: string, c: char): (q: nat)
    ensures q <= |s|
    ensures forall j :: 0 <= j < q ==> s[j] != c
    ensures q < |s| ==> s[q] == c
  {
    if s == [] || s[0] == c then 0 else IndexOf(s[1..], c) + 1
  }

  /** Where the line loop puts its `end` pointer: one past the last non-space character after the blanks. */
  function LineEnd(raw: string): (e: nat)
    ensures LeadBlanks(raw) <= e <= |raw|
  {
    var b := LeadBlanks(raw);
    b + LastNonSpace(raw[b..]) + 1
  }

  /** The text of one line: leading blanks and trailing whitespace removed. */
  function TrimLine(raw: string): string {
    raw[LeadBlanks(raw)..LineEnd(raw)]
  }

  /**
   * The lines `unserialize` visits. The loop writes its terminator at `end`;
   * as written, when `end` is the line feed itself (the line's last visible
   * character is followed directly by LF, or the line is blank) the
   * terminator replaces the LF and the loop stops there.
   */
  function Lines(v: Reading, data: string): seq<string>
    decreases |data|
  {
    if data == [] then []
    else
      var q := IndexOf(data, '\n');
      var raw := data[..q];
      [TrimLine(raw)] + (if q < |data| && (v == Corrected || LineEnd(raw) < q) then Lines(v, data[q + 1..]) else [])
  }

  /** The blank-skipping and `end`-marking loops for the line `data` starts with; `rest` is where the next line starts. */
  method NextLine(v: Reading, data: string) returns (line: string, rest: string)
    requires data != []
    ensures |rest| < |data|
    ensures Lines(v, data) == [line] + Lines(v, rest)
  {
    var i := 0;
    while i < |data| && IsBlank(data[i])
      invariant 0 <= i <= |data|
      invariant forall j :: 0 <= j < i ==> IsBlank(data[j])
    {
      i := i + 1;
    }
    var start := i;
    var end := i;
    while i < |data| && data[i] != '\n'
      invariant start <= end <= i <= |data|
      invariant forall j :: 0 <= j < i ==> data[j] != '\n'
      invariant end > start ==> !IsSpace(data[end - 1])
      invariant forall j :: end <= j < i ==> IsSpace(data[j])
    {
      if !IsSpace(data[i]) {
        end := i + 1;
      }
      i := i + 1;
    }
    line := data[start..end];
    if i < |data| && (v == Corrected || end < i) {
      rest := data[i + 1..];
    } else {
      rest := [];
    }
    LineBounds(data, start, end, i);
    LineStep(v, data, start, end, i);
  }

  lemma LeadBlanksAt(s: string, b: nat)
    requires b <= |s|
    requires forall j :: 0 <= j < b ==> IsBlank(s[j])
    requires b < |s| ==> !IsBlank(s[b])
    ensures LeadBlanks(s) == b
  {
  }

  lemma IndexOfAt(s: string, c: char, q: nat)
    requires q <= |s|
    requires forall j :: 0 <= j < q ==> s[j] != c
    requires q < |s| ==> s[q] == c
    ensures IndexOf(s, c) == q
  {
  }

  /** The line `data[..q]` starts at `start` and ends at `end`. */
  lemma LineEndAt(data: string, q: nat, start: nat, end: nat)
    requires start <= end <= q <= |data|
    requires forall j :: 0 <= j < start ==> IsBlank(data[j])
    requires start < q ==> !IsBlank(data[start])
    requires end > start ==> !IsSpace(data[end - 1])
    requires forall j :: end <= j < q ==> IsSpace(data[j])
    ensures LineEnd(data[..q]) == end
    ensures TrimLine(data[..q]) == data[start..end]
  {
    var raw := data[..q];
    assert forall j :: 0 <= j < start ==> IsBlank(raw[j]);
    LeadBlanksAt(raw, start);
    var after := raw[start..];
    assert forall j :: end - start <= j < |after| ==> IsSpace(after[j]);
    LastNonSpaceUnique(after, end - start - 1);
    assert LineEnd(raw) == end;
    assert forall k :: 0 <= k < end - start ==> raw[start..end][k] == data[start + k];
    assert raw[start..end] == data[start..end];
  }

  /** The loops' `start`, `end` and line feed position agree with `LeadBlanks`, `LineEnd` and `IndexOf`. */
  lemma LineBounds(data: string, start: nat, end: nat, q: nat)
    requires start <= end <= q <= |data|
    requires forall j :: 0 <= j < start ==> IsBlank(data[j])
    requires start < |data| ==> !IsBlank(data[start])
    requires forall j :: 0 <= j < q ==> data[j] != '\n'
    requires q < |data| ==> data[q] == '\n'
    requires end > start ==> !IsSpace(data[end - 1])
    requires forall j :: end <= j < q ==> IsSpace(data[j])
    ensures IndexOf(data, '\n') == q
    ensures LineEnd(data[..q]) == end
    ensures TrimLine(data[..q]) == data[start..end]
  {
    IndexOfAt(data, '\n', q);
    LineEndAt(data, q, start, end);
  }

  lemma LineStep(v: Reading, data: string, start: nat, end: nat, q: nat)
    requires start <= end <= q <= |data| && data != []
    requires IndexOf(data, '\n') == q
    requires LineEnd(data[..q]) == end
    requires TrimLine(data[..q]) == data[start..end]
    ensures Lines(v, data) == [data[start..end]] + Lines(v, if q < |data| && (v == Corrected || end < q) then data[q + 1..] else [])
  {
  }

  ///////////////////////////////////////////////////////////////////////////
  // unserialize: one line

  /** A line split at its first `=`. */
  datatype KeyValue =
    | KeyValue(key: string, value: string)
    | Malformed(key: string)   // no separator or an empty key; `key` is the truncated line
    | NoValue(quoted: string)  // nothing after the separator; `quoted` is what the message quotes

  /**
   * The key/value split: the key is the text before the first `=` without
   * trailing whitespace, the value what follows it without leading
   * whitespace. As written, the terminator for the key is stored at `end`,
   * which is the `=` itself when no whitespace precedes it, so `key=value`
   * reads as a line without separator; and the empty-value message quotes
   * the (empty) value rather than the key.
   */
  function KeyValueOf(v: Reading, line: string): KeyValue {
    var k := IndexOf(line, '=');
    var keyEnd := LastNonSpace(line[..k]) + 1;
    if k == |line| then Malformed(line[..keyEnd])
    else SplitAt(v, line, k, keyEnd, FirstNonSpace(line[k + 1..]))
  }

  /** The split once the `=` at `k`, the key's end and the value's start within the text after `=` are known. */
  function SplitAt(v: Reading, line: string, k: nat, keyEnd: nat, p: nat): KeyValue
    requires k < |line| && keyEnd <= k && p <= |line| - k - 1
  {
    var key := line[..keyEnd];
    if keyEnd == 0 || (v == AsWritten && keyEnd == k) then Malformed(key)
    else
      var value := line[k + 1..][p..];
      if value == [] then NoValue(if v == AsWritten then value else key)
      else KeyValue(key, value)
  }

  /** A split key is a non-empty prefix of the line without `=`, and a split value starts visibly. */
  lemma KeyValueShape(v: Reading, line: string)
    ensures var kv := KeyValueOf(v, line);
      kv.KeyValue? ==> |kv.key| >= 1 && kv.key <= line && kv.value != [] && !IsSpace(kv.value[0])
    ensures var kv := KeyValueOf(v, line); kv.KeyValue? ==> '=' !in kv.key
  {
    var k := IndexOf(line, '=');
    var keyEnd := LastNonSpace(line[..k]) + 1;
    assert keyEnd <= k;
    assert forall j :: 0 <= j < keyEnd ==> line[..keyEnd][j] == line[j];
  }

  /** The loop that finds the separator and marks the key's end. */
  method FindSeparator(line: string) returns (k: nat, end: nat)
    ensures k == IndexOf(line, '=')
    ensures end == LastNonSpace(line[..k]) + 1
  {
    k := 0;
    end := 0;
    while k < |line| && line[k] != '='
      invariant end <= k <= |line|
      invariant forall j :: 0 <= j < k ==> line[j] != '='
      invariant end > 0 ==> !IsSpace(line[end - 1])
      invariant forall j :: end <= j < k ==> IsSpace(line[j])
    {
      if !IsSpace(line[k]) {
        end := k + 1;
      }
      k := k + 1;
    }
    IndexOfAt(line, '=', k);
    LastNonSpaceUnique(line[..k], end - 1);
  }

  /** The key/value split of `unserialize`. */
  method SplitKey(v: Reading, line: string) returns (kv: KeyValue)
    ensures kv == KeyValueOf(v, line)
  {
    var k, end := FindSeparator(line);
    var key := line[..end];
    if k == |line| {
      KeyValueOfNoSeparator(v, line);
      return Malformed(key);
    }
    KeyValueOfSplit(v, line);
    if end == 0 || (v == AsWritten && end == k) {
      return Malformed(key);
    }
    var after := line[k + 1..];
    var p := SkipWhitespace(Some(after));
    var value := after[p.value..];
    if value == [] {
      kv := NoValue(if v == AsWritten then value else key);
    } else {
      kv := KeyValue(key, value);
    }
  }

  /** A line without `=` is a syntax error naming the line up to its trailing whitespace. */
  lemma KeyValueOfNoSeparator(v: Reading, line: string)
    requires IndexOf(line, '=') == |line|
    ensures KeyValueOf(v, line) == Malformed(line[..LastNonSpace(line[..|line|]) + 1])
  {
  }

  /** What a value parses to. */
  datatype Parsed =
    | Components(xs: seq<real>, tooMany: bool)
    | BadColor
    | BadNumber(at: string)

  /** A `#` hex colour, or up to four numbers (more are reported, not read). */
  function ValueOf(io: TextCodec, value: string): (r: Parsed)
    requires value != []
    ensures r.Components? ==> 1 <= |r.xs| <= 4
  {
    if value[0] == '#' then
      match HexColor(value[1..])
      case None => BadColor
      case Some(xs) => Components(xs, false)
    else
      match NumberList(io, value, 4)
      case NumBad(at) => BadNumber(at)
      case NumOk(xs, rest) => Components(xs, rest != [])
  }

  /** The value parsing branch of `unserialize`. */
  method ParseValue(io: TextCodec, value: string) returns (r: Parsed)
    requires value != []
    ensures r == ValueOf(io, value)
  {
    if value[0] == '#' {
      var h := ScanHexColor(value[1..]);
      var c := Colour(h);
      if c.None? {
        r := BadColor;
      } else {
        r := Components(c.value, false);
      }
    } else {
      var n := ScanNumbers(io, value);
      match n
      case NumBad(at) => r := BadNumber(at);
      case NumOk(xs, rest) => r := Components(xs, rest != []);
    }
  }

  ///////////////////////////////////////////////////////////////////////////
  // unserialize: the reader's state

  datatype Status = Running | Rejected | Crashed

  /**
   * The state of `unserialize` between lines: `waitingForSection`, whether
   * `node` is set (it is then the last of `nodes`), whether `clear()` has
   * run, `showIndex`, `versionOK`, and the pipeline's nodes.
   */
  datatype Reader = Reader(status: Status, waiting: bool, node: bool, cleared: bool,
                           showIndex: int, versionOK: bool, nodes: seq<NodeImage>)

  predicate Coherent(st: Reader) {
    st.node ==> |st.nodes| > 0
  }

  /**
   * What the reader consults: path and number conversions, whether the
   * pipeline initialises, and what `addNode(filename)` loads for a file.
   */
  datatype Env = Env(io: TextCodec, initOK: bool, load: string -> NodeImage)

  function Start(nodes0: seq<NodeImage>): Reader {
    Reader(Running, true, false, false, -1, false, nodes0)
  }

  /** A node as `addNode(filename)` leaves it: loaded from `fname` unless that is empty. */
  function Loaded(fname: string, tc: Toolchain): (n: NodeImage)
    ensures n.filename == fname && n.enabled
  {
    if fname == [] then NodeImage([], true, [], [])
    else
      var r := LoadFile(fname, [], InitialPasses, tc);
      NodeImage(fname, true, r.errors, r.params)
  }

  /** The reader's surroundings when `addNode(filename)` runs the shader loader through `tc`. */
  function ShaderEnv(io: TextCodec, tc: Toolchain, initOK: bool): (env: Env)
    ensures LoadsNamed(env)
  {
    Env(io, initOK, f => Loaded(f, tc))
  }

  /** Every node the loader returns names the file it was asked for and starts enabled. */
  ghost predicate LoadsNamed(env: Env) {
    forall f :: env.load(f).filename == f && env.load(f).enabled
  }

  function Last(st: Reader): NodeImage
    requires st.node && Coherent(st)
  {
    st.nodes[|st.nodes| - 1]
  }

  function SetLast(st: Reader, n: NodeImage): (r: Reader)
    requires st.node && Coherent(st)
    ensures Coherent(r) && r.node && Last(r) == n
  {
    st.(nodes := st.nodes[..|st.nodes| - 1] + [n])
  }

  /** `node->m_errors += …`: one more message on the current node, and nothing else changes. */
  function Report(st: Reader, d: Diagnostic): (r: Reader)
    requires st.node && Coherent(st)
    ensures Coherent(r) && r.node
    ensures r.status == st.status && r.waiting == st.waiting && r.cleared == st.cleared
    ensures r.showIndex == st.showIndex && r.versionOK == st.versionOK
    ensures |r.nodes| == |st.nodes| && r.nodes[..|r.nodes| - 1] == st.nodes[..|st.nodes| - 1]
    ensures Last(r).errors == Last(st).errors + [d] && Last(r) == Last(st).(errors := Last(r).errors)
  {
    var n := Last(st);
    SetLast(st, n.(errors := n.errors + [d]))
  }

  /** A syntax error: fatal before the first node, reported on the node after it. */
  function Soft(st: Reader, d: Diagnostic): (r: Reader)
    requires Coherent(st)
    ensures Coherent(r)
    ensures !st.node ==> r.status == Rejected && r.nodes == st.nodes
    ensures st.node ==> r.status == st.status && r.node && |r.nodes| == |st.nodes|
                        && Last(r).errors == Last(st).errors + [d] && Last(r).params == Last(st).params
  {
    if st.node then Report(st, d) else st.(status := Rejected)
  }

  /**
   * An invalid colour, an invalid value or too many values, reported through
   * `node` without a null check: as written, before the first node that
   * dereferences null; corrected, it is fatal like the other syntax errors
   * of the `[GIPS]` section.
   */
  function Fault(v: Reading, st: Reader, d: Diagnostic): (r: Reader)
    requires Coherent(st)
    ensures Coherent(r)
    ensures !st.node ==> r.status == (if v == AsWritten then Crashed else Rejected) && r.nodes == st.nodes
    ensures st.node ==> r.status == st.status && r.node && |r.nodes| == |st.nodes|
                        && Last(r).errors == Last(st).errors + [d] && Last(r).params == Last(st).params
  {
    if st.node then Report(st, d)
    else st.(status := if v == AsWritten then Crashed else Rejected)
  }

  /** `vnum`: the parsed components, then the remaining slots from `defaults`. */
  function Fill(xs: seq<real>, defaults: Vec4): (r: Vec4)
    requires 1 <= |xs| <= 4
    ensures r[..|xs|] == xs && r[|xs|..] == defaults[|xs|..]
  {
    xs + defaults[|xs|..]
  }

  /** The version check: `|x - 1| < 1e-6`. */
  predicate VersionMatches(x: real) {
    -0.000001 < x - 1.0 < 0.000001
  }

  predicate IsEnableKey(key: string) {
    key == ".enabled" || key == ".enable" || key == ".active"
  }

  /** `VFS::getFullPath(name)`, or `name` itself when that yields null. */
  function Resolve(io: TextCodec, name: string): string {
    match io.fullPath(name)
    case Some(f) => f
    case None => name
  }

  /**
   * `[name]`: the GIPS header, or a node section that loads a shader. The
   * first section must be `[GIPS]`, and a node section needs the version
   * accepted first; either failure is fatal and leaves the pipeline alone.
   * The first node section empties the pipeline, and each appends a node
   * loaded from the resolved name when the pipeline initialises.
   */
  function Section(st: Reader, name: string, env: Env): (r: Reader)
    requires Coherent(st)
    ensures Coherent(r)
    ensures st.waiting ==> r.nodes == st.nodes && r.node == st.node
    ensures st.waiting && name == "GIPS" ==> r.status == st.status && !r.waiting
    ensures st.waiting && name != "GIPS" ==> r.status == Rejected
    ensures !st.waiting && !st.node && !st.versionOK ==> r.status == Rejected && r.nodes == st.nodes
    ensures !st.waiting && (st.node || st.versionOK) ==>
      && r.status == st.status && r.cleared && r.node == env.initOK
      && r.nodes == (if st.node then st.nodes else [])
                    + (if env.initOK then [env.load(Resolve(env.io, name))] else [])
  {
    if st.waiting then
      if name == "GIPS" then st.(waiting := false) else st.(status := Rejected)
    else if !st.node && !st.versionOK then st.(status := Rejected)
    else
      var base := if st.node then st.nodes else [];
      if env.initOK then st.(nodes := base + [env.load(Resolve(env.io, name))], node := true, cleared := true)
      else st.(nodes := base, node := false, cleared := true)
  }

  /** An assignment with parsed components `xs`. */
  function Apply(v: Reading, st: Reader, key: string, xs: seq<real>): (r: Reader)
    requires Coherent(st) && 1 <= |xs| <= 4
    ensures Coherent(r)
  {
    var p := if st.node then FirstNamed(Last(st).params, key) else None;
    var vnum := Fill(xs, if p.Some? then Last(st).params[p.value].defaultValue else Zero4);
    if key == ".show" && vnum[0] > 0.0 then
      st.(showIndex := if v == Corrected && !st.cleared then 0 else |st.nodes|)
    else if !st.node then
      if key != "version" then st
      else if VersionMatches(vnum[0]) then st.(versionOK := true)
      else st.(versionOK := false, status := Rejected)
    else
      var n := Last(st);
      if IsEnableKey(key) then SetLast(st, n.(enabled := vnum[0] > 0.5))
      else if p.None? then Report(st, UnknownParameter(key))
      else SetLast(st, n.(params := n.params[p.value := n.params[p.value].(value := vnum)]))
  }

  /** A `key = value` line. */
  function Assignment(v: Reading, st: Reader, line: string, env: Env): (r: Reader)
    requires Coherent(st)
    ensures Coherent(r)
    ensures !KeyValueOf(v, line).KeyValue? && !st.node ==> r.status == Rejected && r.nodes == st.nodes
    ensures !KeyValueOf(v, line).KeyValue? && st.node ==>
      && r.status == st.status && r.node && |r.nodes| == |st.nodes|
      && Last(r).params == Last(st).params && |Last(r).errors| == |Last(st).errors| + 1
    ensures KeyValueOf(v, line).KeyValue? && !ValueOf(env.io, KeyValueOf(v, line).value).Components? && !st.node ==>
      r.status == (if v == AsWritten then Crashed else Rejected) && r.nodes == st.nodes
  {
    match KeyValueOf(v, line)
    case Malformed(key) => Soft(st, SyntaxError(key))
    case NoValue(quoted) => Soft(st, EmptyValue(quoted))
    case KeyValue(key, value) =>
      match ValueOf(env.io, value)
      case BadColor => Fault(v, st, InvalidColor(value, key))
      case BadNumber(at) => Fault(v, st, InvalidValue(at, key))
      case Components(xs, tooMany) =>
        var st1 := if tooMany then Fault(v, st, TooManyValues(key)) else st;
        if st1.status != Running then st1 else Apply(v, st1, key, xs)
  }

  predicate IsHeader(line: string) {
    |line| >= 2 && line[0] == '[' && line[|line| - 1] == ']'
  }

  /** One pass of the line loop. */
  function Step(v: Reading, st: Reader, line: string, env: Env): (r: Reader)
    requires Coherent(st)
    ensures Coherent(r)
    ensures st.waiting && !Skipped(line) && !IsHeader(line) ==> r.status == Rejected && r.nodes == st.nodes
  {
    if line == [] || line[0] == ';' || line[0] == '#' then st
    else if IsHeader(line) then Section(st, line[1..|line| - 1], env)
    else if st.waiting then st.(status := Rejected)
    else Assignment(v, st, line, env)
  }

  /** The line loop, which ends early on `return -1` or a crash. */
  function Run(v: Reading, st: Reader, lines: seq<string>, env: Env): (r: Reader)
    requires Coherent(st)
    ensures Coherent(r)
    decreases |lines|
  {
    if lines == [] || st.status != Running then st
    else Run(v, Step(v, st, lines[0], env), lines[1..], env)
  }

  datatype Outcome = Returned(index: int) | Crash

  /** What `unserialize` returns, and the pipeline's nodes afterwards. */
  datatype ReadResult = ReadResult(outcome: Outcome, nodes: seq<NodeImage>)

  function Finish(st: Reader): ReadResult {
    match st.status
    case Rejected => ReadResult(Returned(-1), st.nodes)
    case Crashed => ReadResult(Crash, st.nodes)
    case Running => ReadResult(Returned(if st.showIndex >= 0 then st.showIndex else |st.nodes|), st.nodes)
  }

  /** `Pipeline::unserialize` on a pipeline holding `nodes0`. */
  function ReadSpec(v: Reading, data: string, env: Env, nodes0: seq<NodeImage>): (r: ReadResult)
    ensures data == [] ==> r == ReadResult(Returned(-1), nodes0)
    ensures r.outcome.Returned? ==> r.outcome.index >= -1
  {
    if data == [] then ReadResult(Returned(-1), nodes0)
    else Finish(Run(v, Start(nodes0), Lines(v, data), env))
  }

  ///////////////////////////////////////////////////////////////////////////
  // unserialize: the loops

  /** The default-filling loop: components missing from `xs` are taken from `defaults`. */
  method FillDefaults(xs: seq<real>, defaults: Vec4) returns (vnum: Vec4)
    requires 1 <= |xs| <= 4
    ensures vnum == Fill(xs, defaults)
  {
    var acc := xs;
    var numcount := |xs|;
    while numcount < 4
      invariant |xs| <= numcount <= 4 && |acc| == numcount
      invariant acc == Fill(xs, defaults)[..numcount]
    {
      acc := acc + [defaults[numcount]];
      numcount := numcount + 1;
    }
    assert acc == Fill(xs, defaults);
    vnum := acc;
  }

  /** The parameter lookup and the pseudo-key checks of one assignment. */
  method ApplyLine(v: Reading, st: Reader, key: string, xs: seq<real>) returns (r: Reader)
    requires Coherent(st) && 1 <= |xs| <= 4
    ensures r == Apply(v, st, key, xs)
  {
    var p: Option<nat> := None;
    if st.node {
      p := FindParam(Last(st).params, key);
    }
    var defaults := if p.Some? then Last(st).params[p.value].defaultValue else Zero4;
    var vnum := FillDefaults(xs, defaults);
    if key == ".show" && vnum[0] > 0.0 {
      r := st.(showIndex := if v == Corrected && !st.cleared then 0 else |st.nodes|);
    } else if !st.node {
      if key == "version" {
        if VersionMatches(vnum[0]) {
          r := st.(versionOK := true);
        } else {
          r := st.(versionOK := false, status := Rejected);
        }
      } else {
        r := st;
      }
    } else {
      var n := Last(st);
      if IsEnableKey(key) {
        r := SetLast(st, n.(enabled := vnum[0] > 0.5));
      } else if p.None? {
        r := Report(st, UnknownParameter(key));
      } else {
        r := SetLast(st, n.(params := n.params[p.value := n.params[p.value].(value := vnum)]));
      }
    }
  }

  /** The body of the line loop. */
  method ReadLine(v: Reading, st: Reader, line: string, env: Env) returns (r: Reader)
    requires Coherent(st)
    ensures r == Step(v, st, line, env)
  {
    if line == [] || line[0] == ';' || line[0] == '#' {
      return st;
    }
    if IsHeader(line) {
      return Section(st, line[1..|line| - 1], env);
    }
    if st.waiting {
      return st.(status := Rejected);
    }
    var kv := SplitKey(v, line);
    match kv
    case Malformed(key) =>
      r := Soft(st, SyntaxError(key));
    case NoValue(quoted) =>
      r := Soft(st, EmptyValue(quoted));
    case KeyValue(key, value) =>
      var parsed := ParseValue(env.io, value);
      match parsed
      case BadColor =>
        r := Fault(v, st, InvalidColor(value, key));
      case BadNumber(at) =>
        r := Fault(v, st, InvalidValue(at, key));
      case Components(xs, tooMany) =>
        r := st;
        if tooMany {
          r := Fault(v, r, TooManyValues(key));
        }
        if r.status == Running {
          r := ApplyLine(v, r, key, xs);
        }
  }

  /**
   * `Pipeline::unserialize(data)` on a pipeline holding `nodes0`: the line
   * loop, which stops at the end of the text, at `return -1`, or at a crash.
   */
  method Unserialize(v: Reading, data: string, env: Env, nodes0: seq<NodeImage>) returns (r: ReadResult)
    ensures r == ReadSpec(v, data, env, nodes0)
  {
    if data == [] {
      return ReadResult(Returned(-1), nodes0);
    }
    var st := Start(nodes0);
    var rest := data;
    while rest != [] && st.status == Running
      invariant Coherent(st)
      invariant Run(v, Start(nodes0), Lines(v, data), env) == Run(v, st, Lines(v, rest), env)
      decreases |rest|
    {
      var line, next := NextLine(v, rest);
      assert ([line] + Lines(v, next))[1..] == Lines(v, next);
      st := ReadLine(v, st, line, env);
      rest := next;
    }
    r := Finish(st);
  }

  ///////////////////////////////////////////////////////////////////////////
  // reading what `serialize` wrote: lines

  /** Each line as the line loop trims it. */
  function Trims(ls: seq<string>): (r: seq<string>)
    ensures |r| == |ls|
    ensures forall i :: 0 <= i < |ls| ==> r[i] == TrimLine(ls[i])
  {
    seq(|ls|, i requires 0 <= i < |ls| => TrimLine(ls[i]))
  }

  lemma TrimsAppend(a: seq<string>, b: seq<string>)
    ensures Trims(a + b) == Trims(a) + Trims(b)
  {
    assert forall i :: 0 <= i < |a + b| ==> Trims(a + b)[i] == (Trims(a) + Trims(b))[i] by {
      forall i | 0 <= i < |a + b|
        ensures Trims(a + b)[i] == (Trims(a) + Trims(b))[i]
      {
        if i < |a| {
          assert (a + b)[i] == a[i];
        } else {
          assert (a + b)[i] == b[i - |a|];
        }
      }
    }
  }

  lemma LastNonSpaceCR(x: string)
    ensures LastNonSpace(x + "\r") == LastNonSpace(x)
  {
    assert (x + "\r")[..|x|] == x;
  }

  /** A carriage return before the line feed is trimmed with the other trailing whitespace. */
  lemma TrimCR(l: string)
    ensures TrimLine(l + "\r") == TrimLine(l)
    ensures LineEnd(l + "\r") <= |l|
  {
    var b := LeadBlanks(l);
    LeadBlanksAt(l + "\r", b);
    assert (l + "\r")[b..] == l[b..] + "\r";
    LastNonSpaceCR(l[b..]);
  }

  /** The first line of `l`, an optional CR, LF and `tail`. */
  lemma LineOfJoin(v: Reading, l: string, cr: string, tail: string)
    requires '\n' !in l
    requires cr == "\r" || (v == Corrected && cr == [])
    ensures Lines(v, (l + cr) + "\n" + tail) == [TrimLine(l)] + Lines(v, tail)
  {
    var data := (l + cr) + "\n" + tail;
    var q := |l + cr|;
    assert '\n' !in l + cr;
    FirstLine(l + cr, tail);
    assert data[q + 1..] == tail;
    if cr == "\r" {
      TrimCR(l);
    } else {
      assert l + cr == l;
    }
  }

  lemma JoinCons(ls: seq<string>, eol: string, cr: string)
    requires ls != [] && eol == cr + "\n"
    ensures Join(ls, eol) == (ls[0] + cr) + "\n" + Join(ls[1..], eol)
  {
  }

  /**
   * Lines ended by CR LF read back as the lines themselves, trimmed, in
   * both readings; ended by a bare LF only once the line loop is corrected.
   */
  lemma {:induction false} JoinLines(v: Reading, ls: seq<string>, eol: string)
    requires eol == CRLF || (v == Corrected && eol == "\n")
    requires forall i :: 0 <= i < |ls| ==> '\n' !in ls[i]
    ensures Lines(v, Join(ls, eol)) == Trims(ls)
  {
    if ls != [] {
      var cr: string := if eol == CRLF then "\r" else [];
      JoinCons(ls, eol, cr);
      LineOfJoin(v, ls[0], cr, Join(ls[1..], eol));
      assert forall i :: 0 <= i < |ls[1..]| ==> ls[1..][i] == ls[i + 1];
      JoinLines(v, ls[1..], eol);
      TrimsCons(ls);
    }
  }

  lemma TrimsCons(ls: seq<string>)
    requires ls != []
    ensures Trims(ls) == [TrimLine(ls[0])] + Trims(ls[1..])
  {
    var t := Trims(ls[1..]);
    forall i | 0 <= i < |t|
      ensures t[i] == TrimLine(ls[i + 1])
    {
      assert ls[1..][i] == ls[i + 1];
    }
    MapCons(TrimLine, ls, Trims(ls), t);
  }

  /** A sequence mapped element by element is the first image followed by the rest mapped. */
  lemma MapCons(f: string -> string, ls: seq<string>, a: seq<string>, b: seq<string>)
    requires |ls| >= 1 && |a| == |ls| && |b| == |ls| - 1
    requires forall i :: 0 <= i < |ls| ==> a[i] == f(ls[i])
    requires forall i :: 0 <= i < |b| ==> b[i] == f(ls[i + 1])
    ensures a == [f(ls[0])] + b
  {
    var c := [f(ls[0])] + b;
    forall i | 0 <= i < |a|
      ensures a[i] == c[i]
    {
      if i > 0 {
        assert c[i] == b[i - 1];
      }
    }
  }

  ///////////////////////////////////////////////////////////////////////////
  // reading what `serialize` wrote: the reader's shape

  lemma {:induction false} RunAppend(v: Reading, st: Reader, a: seq<string>, b: seq<string>, env: Env)
    requires Coherent(st)
    ensures Run(v, st, a + b, env) == Run(v, Run(v, st, a, env), b, env)
    decreases |a|
  {
    if a == [] {
      assert a + b == b;
    } else if st.status == Running {
      assert (a + b)[0] == a[0] && (a + b)[1..] == a[1..] + b;
      RunAppend(v, Step(v, st, a[0], env), a[1..], b, env);
    }
  }

  function Files(ns: seq<NodeImage>): (r: seq<string>)
    ensures |r| == |ns| && forall i :: 0 <= i < |ns| ==> r[i] == ns[i].filename
  {
    seq(|ns|, i requires 0 <= i < |ns| => ns[i].filename)
  }

  function Flags(ns: seq<NodeImage>): (r: seq<bool>)
    ensures |r| == |ns| && forall i :: 0 <= i < |ns| ==> r[i] == ns[i].enabled
  {
    seq(|ns|, i requires 0 <= i < |ns| => ns[i].enabled)
  }

  /** What a pipeline file decides beyond parameter values and messages: the loop's flags and each node's file and enabled flag. */
  datatype Sketch = Sketch(status: Status, waiting: bool, node: bool, cleared: bool, showIndex: int,
                           versionOK: bool, files: seq<string>, flags: seq<bool>)

  function SketchOf(st: Reader): Sketch {
    Sketch(st.status, st.waiting, st.node, st.cleared, st.showIndex, st.versionOK, Files(st.nodes), Flags(st.nodes))
  }

  lemma SetLastSketch(st: Reader, n: NodeImage)
    requires st.node && Coherent(st)
    requires n.filename == Last(st).filename && n.enabled == Last(st).enabled
    ensures SketchOf(SetLast(st, n)) == SketchOf(st)
  {
    var r := SetLast(st, n);
    assert Files(r.nodes) == Files(st.nodes);
    assert Flags(r.nodes) == Flags(st.nodes);
  }

  /** A line that starts like an identifier: neither a comment, a header nor a pseudo-key. */
  predicate InertLine(line: string) {
    line != [] && (IsAlpha(line[0]) || line[0] == '_')
  }

  lemma ReportSketch(st: Reader, d: Diagnostic)
    requires st.node && Coherent(st)
    ensures SketchOf(Report(st, d)) == SketchOf(st)
  {
    var n := Last(st);
    SetLastSketch(st, n.(errors := n.errors + [d]));
  }

  /** An assignment to an ordinary key changes at most the last node's parameters and messages. */
  lemma ApplyInert(v: Reading, st: Reader, key: string, xs: seq<real>)
    requires Coherent(st) && st.node && 1 <= |xs| <= 4
    requires key != ".show" && !IsEnableKey(key)
    ensures SketchOf(Apply(v, st, key, xs)) == SketchOf(st)
  {
    var n := Last(st);
    var p := FirstNamed(n.params, key);
    if p.None? {
      ReportSketch(st, UnknownParameter(key));
    } else {
      var vnum := Fill(xs, n.params[p.value].defaultValue);
      SetLastSketch(st, n.(params := n.params[p.value := n.params[p.value].(value := vnum)]));
    }
  }

  /** A parsed `key = value` line with an ordinary key. */
  lemma KeyValueInert(v: Reading, st: Reader, line: string, key: string, value: string, env: Env)
    requires Coherent(st) && st.status == Running && st.node
    requires KeyValueOf(v, line) == KeyValue(key, value)
    requires key != ".show" && !IsEnableKey(key)
    ensures SketchOf(Assignment(v, st, line, env)) == SketchOf(st)
  {
    match ValueOf(env.io, value)
    case BadColor =>
      ReportSketch(st, InvalidColor(value, key));
    case BadNumber(at) =>
      ReportSketch(st, InvalidValue(at, key));
    case Components(xs, tooMany) =>
      var st1 := if tooMany then Report(st, TooManyValues(key)) else st;
      if tooMany {
        ReportSketch(st, TooManyValues(key));
      }
      ApplyInert(v, st1, key, xs);
  }

  /** Once a node is open, a line that starts like an identifier changes at most that node's parameters and messages. */
  lemma StepInert(v: Reading, st: Reader, line: string, env: Env)
    requires Coherent(st) && st.status == Running && st.node && !st.waiting && InertLine(line)
    ensures SketchOf(Step(v, st, line, env)) == SketchOf(st)
  {
    assert !IsHeader(line);
    assert Step(v, st, line, env) == Assignment(v, st, line, env);
    AssignmentInert(v, st, line, env);
  }

  /** The assignment branch of `StepInert`. */
  lemma AssignmentInert(v: Reading, st: Reader, line: string, env: Env)
    requires Coherent(st) && st.status == Running && st.node && InertLine(line)
    ensures SketchOf(Assignment(v, st, line, env)) == SketchOf(st)
  {
    match KeyValueOf(v, line)
    case Malformed(key) =>
      ReportSketch(st, SyntaxError(key));
    case NoValue(quoted) =>
      ReportSketch(st, EmptyValue(quoted));
    case KeyValue(key, value) =>
      assert key[0] == line[0];
      KeyValueInert(v, st, line, key, value, env);
  }

  lemma {:induction false} RunInert(v: Reading, st: Reader, lines: seq<string>, env: Env)
    requires Coherent(st) && st.status == Running && st.node && !st.waiting
    requires forall i :: 0 <= i < |lines| ==> InertLine(lines[i])
    ensures SketchOf(Run(v, st, lines, env)) == SketchOf(st)
    decreases |lines|
  {
    if lines != [] {
      var st1 := Step(v, st, lines[0], env);
      StepInert(v, st, lines[0], env);
      RunInert(v, st1, lines[1..], env);
    }
  }

  ///////////////////////////////////////////////////////////////////////////
  // reading what `serialize` wrote: single lines

  lemma TrimExact(l: string)
    requires l != [] && !IsSpace(l[0]) && !IsSpace(l[|l| - 1])
    ensures TrimLine(l) == l
  {
    LeadBlanksAt(l, 0);
    assert l[0..] == l;
    LastNonSpaceUnique(l, |l| - 1);
  }

  lemma TrimStart(l: string)
    requires l != [] && !IsSpace(l[0])
    ensures TrimLine(l) != [] && TrimLine(l)[0] == l[0]
  {
    LeadBlanksAt(l, 0);
    assert l[0..] == l;
  }

  /**
   * Splitting `key gap1 = gap2 value`: the key and the value, except that
   * as written a key directly followed by `=` is a syntax error.
   */
  lemma KeySplit(v: Reading, key: string, gap1: string, gap2: string, value: string)
    requires key != [] && '=' !in key && !IsSpace(key[|key| - 1])
    requires forall i :: 0 <= i < |gap1| ==> IsSpace(gap1[i])
    requires forall i :: 0 <= i < |gap2| ==> IsSpace(gap2[i])
    requires value != [] && !IsSpace(value[0])
    ensures KeyValueOf(v, key + gap1 + "=" + gap2 + value)
         == if v == AsWritten && gap1 == [] then Malformed(key) else KeyValue(key, value)
  {
    var line := key + gap1 + "=" + gap2 + value;
    var k := |key| + |gap1|;
    assert IndexOf(line, '=') == k && LastNonSpace(line[..k]) + 1 == |key| && line[..|key|] == key by {
      SplitAtEquals(key, gap1, gap2, value);
      LastNonSpaceUnique(key + gap1, |key| - 1);
    }
    assert k < |line| && FirstNonSpace(line[k + 1..]) == |gap2| && line[k + 1..][|gap2|..] == value by {
      SplitAtEquals(key, gap1, gap2, value);
      FirstNonSpaceAt(gap2 + value, |gap2|);
    }
    KeyValueAt(v, line, k, |key|, |gap2|);
  }

  /** The split of a line whose `=`, key end and value start are known. */
  lemma KeyValueAt(v: Reading, line: string, k: nat, keyEnd: nat, p: nat)
    requires k < |line| && IndexOf(line, '=') == k
    requires 0 < keyEnd && LastNonSpace(line[..k]) + 1 == keyEnd
    requires p < |line| - k - 1 && FirstNonSpace(line[k + 1..]) == p
    ensures KeyValueOf(v, line) ==
      if v == AsWritten && keyEnd == k then Malformed(line[..keyEnd]) else KeyValue(line[..keyEnd], line[k + 1..][p..])
  {
    assert KeyValueOf(v, line) == SplitAt(v, line, k, keyEnd, p) by {
      KeyValueOfSplit(v, line);
    }
    SplitAtFound(v, line, k, keyEnd, p);
  }

  /** A line with an `=` splits there. */
  lemma KeyValueOfSplit(v: Reading, line: string)
    requires IndexOf(line, '=') < |line|
    ensures var k := IndexOf(line, '=');
      KeyValueOf(v, line) == SplitAt(v, line, k, LastNonSpace(line[..k]) + 1, FirstNonSpace(line[k + 1..]))
  {
  }

  lemma SplitAtFound(v: Reading, line: string, k: nat, keyEnd: nat, p: nat)
    requires k < |line| && 0 < keyEnd <= k && p < |line| - k - 1
    ensures SplitAt(v, line, k, keyEnd, p) ==
      if v == AsWritten && keyEnd == k then Malformed(line[..keyEnd]) else KeyValue(line[..keyEnd], line[k + 1..][p..])
  {
    assert |line[k + 1..][p..]| > 0;
  }

  /** The first `=` of `key gap1 = gap2 value` is the one after the gap. */
  lemma SplitAtEquals(key: string, gap1: string, gap2: string, value: string)
    requires '=' !in key
    requires forall i :: 0 <= i < |gap1| ==> IsSpace(gap1[i])
    ensures var line := key + gap1 + "=" + gap2 + value; var k := |key| + |gap1|;
      IndexOf(line, '=') == k && line[..k] == key + gap1 && line[k + 1..] == gap2 + value
  {
    var line := key + gap1 + "=" + gap2 + value;
    var k := |key| + |gap1|;
    forall j | 0 <= j < k
      ensures line[j] != '='
    {
      if j < |key| {
        assert line[j] == key[j];
      } else {
        assert line[j] == gap1[j - |key|];
      }
    }
    IndexOfAt(line, '=', k);
    assert line[..k] == key + gap1;
    assert line[k + 1..] == gap2 + value;
  }

  lemma FirstNonSpaceAt(s: string, k: nat)
    requires k <= |s|
    requires forall j :: 0 <= j < k ==> IsSpace(s[j])
    requires k < |s| ==> !IsSpace(s[k])
    ensures FirstNonSpace(s) == k
  {
  }

  /** A value of one number that `scan` reads whole. */
  lemma ValueOne(io: TextCodec, text: string, x: real)
    requires text != [] && text[0] != '#' && io.scan(text) == (x, |text|)
    ensures ValueOf(io, text) == Components([x], false)
  {
    assert text[|text|..] == [];
  }

  lemma PseudoKeyLine(v: Reading, key: string, text: string)
    requires key != [] && '=' !in key && !IsSpace(key[0]) && !IsSpace(key[|key| - 1])
    requires text != [] && !IsSpace(text[0]) && !IsSpace(text[|text| - 1])
    ensures TrimLine(key + " = " + text) == key + " = " + text
    ensures KeyValueOf(v, key + " = " + text) == KeyValue(key, text)
  {
    var line := key + " = " + text;
    assert line == key + " " + "=" + " " + text;
    KeySplit(v, key, " ", " ", text);
    assert line[0] == key[0] && line[|line| - 1] == text[|text| - 1];
    TrimExact(line);
  }

  /** A `key = number` line with a key that is neither a comment nor a header. */
  lemma AssignStep(v: Reading, st: Reader, key: string, text: string, x: real, env: Env)
    requires Coherent(st) && st.status == Running && !st.waiting
    requires key != [] && '=' !in key && !IsSpace(key[0]) && !IsSpace(key[|key| - 1])
    requires key[0] != ';' && key[0] != '#' && key[0] != '['
    requires text != [] && text[0] != '#' && !IsSpace(text[0]) && !IsSpace(text[|text| - 1])
    requires env.io.scan(text) == (x, |text|)
    ensures TrimLine(key + " = " + text) == key + " = " + text
    ensures Step(v, st, key + " = " + text, env) == Apply(v, st, key, [x])
  {
    ValueOne(env.io, text, x);
    AssignNumbersStep(v, st, key, text, [x], env);
  }

  /** A `key = text` line whose value parses to the numbers `xs` applies them to `key`. */
  lemma AssignNumbersStep(v: Reading, st: Reader, key: string, text: string, xs: seq<real>, env: Env)
    requires Coherent(st) && st.status == Running && !st.waiting && 1 <= |xs| <= 4
    requires key != [] && '=' !in key && !IsSpace(key[0]) && !IsSpace(key[|key| - 1])
    requires key[0] != ';' && key[0] != '#' && key[0] != '['
    requires text != [] && !IsSpace(text[0]) && !IsSpace(text[|text| - 1])
    requires ValueOf(env.io, text) == Components(xs, false)
    ensures TrimLine(key + " = " + text) == key + " = " + text
    ensures Step(v, st, key + " = " + text, env) == Apply(v, st, key, xs)
  {
    var line := key + " = " + text;
    assert line[0] == key[0] && line != [];
    StepAssigns(v, st, line, env);
    PseudoKeyLine(v, key, text);
    AssignmentOfNumbers(v, st, line, key, text, xs, env);
  }

  /** A line that is neither empty, a comment nor a header is an assignment once the header was seen. */
  lemma StepAssigns(v: Reading, st: Reader, line: string, env: Env)
    requires Coherent(st) && !st.waiting
    requires line != [] && line[0] != ';' && line[0] != '#' && line[0] != '['
    ensures Step(v, st, line, env) == Assignment(v, st, line, env)
  {
  }

  /** An assignment whose value parses to the numbers `xs`. */
  lemma AssignmentOfNumbers(v: Reading, st: Reader, line: string, key: string, text: string, xs: seq<real>, env: Env)
    requires Coherent(st) && st.status == Running && 1 <= |xs| <= 4
    requires KeyValueOf(v, line) == KeyValue(key, text) && ValueOf(env.io, text) == Components(xs, false)
    ensures Assignment(v, st, line, env) == Apply(v, st, key, xs)
  {
  }

  /** `version = 1` in the `[GIPS]` section accepts the file's version. */
  lemma VersionStep(v: Reading, st: Reader, env: Env)
    requires Coherent(st) && st.status == Running && !st.waiting && !st.node
    requires env.io.scan("1") == (1.0, 1)
    ensures TrimLine("version = 1") == "version = 1"
    ensures Step(v, st, "version = 1", env) == st.(versionOK := true)
  {
    assert "version = 1" == "version" + " = " + "1";
    AssignStep(v, st, "version", "1", 1.0, env);
    ApplyVersion(v, st, 1.0);
  }

  /** `.show = 1`: the node count so far becomes the show index (as written, the old pipeline's count in the header). */
  lemma ShowStep(v: Reading, st: Reader, env: Env)
    requires Coherent(st) && st.status == Running && !st.waiting
    requires env.io.scan("1") == (1.0, 1)
    ensures TrimLine(ShowLine) == ShowLine
    ensures Step(v, st, ShowLine, env) == st.(showIndex := if v == Corrected && !st.cleared then 0 else |st.nodes|)
  {
    assert ShowLine == ".show" + " = " + "1";
    AssignStep(v, st, ".show", "1", 1.0, env);
    ApplyShow(v, st, [1.0]);
  }

  /** `.show` with a positive value marks the show index, and nothing else changes. */
  lemma ApplyShow(v: Reading, st: Reader, xs: seq<real>)
    requires Coherent(st) && 1 <= |xs| <= 4 && xs[0] > 0.0
    ensures Apply(v, st, ".show", xs) == st.(showIndex := if v == Corrected && !st.cleared then 0 else |st.nodes|)
  {
    forall d: Vec4 ensures Fill(xs, d)[0] == xs[0] {
      FillHead(xs, d);
    }
  }

  /** `.enabled = 0` disables the current node. */
  lemma DisableStep(v: Reading, st: Reader, env: Env)
    requires Coherent(st) && st.status == Running && !st.waiting && st.node
    requires env.io.scan("0") == (0.0, 1)
    ensures TrimLine(DisabledLine) == DisabledLine
    ensures Step(v, st, DisabledLine, env) == SetLast(st, Last(st).(enabled := false))
  {
    assert DisabledLine == ".enabled" + " = " + "0";
    AssignStep(v, st, ".enabled", "0", 0.0, env);
    ApplyEnableIs(v, st, ".enabled", [0.0]);
  }

  ///////////////////////////////////////////////////////////////////////////
  // reading what `serialize` wrote: sections

  lemma RunCons(v: Reading, st: Reader, l: string, ls: seq<string>, env: Env)
    requires Coherent(st) && st.status == Running
    ensures Run(v, st, [l] + ls, env) == Run(v, Step(v, st, l, env), ls, env)
  {
    assert ([l] + ls)[0] == l && ([l] + ls)[1..] == ls;
  }

  /** The show index after the `[GIPS]` section: `.show = 1` there counts the old pipeline's nodes as written. */
  function HeaderShow(v: Reading, showIndex: int, oldCount: nat): int {
    if showIndex != 0 then -1 else if v == Corrected then 0 else oldCount
  }

  /** The reader after the `[GIPS]` section: version accepted, no node yet. */
  function HeaderDone(v: Reading, showIndex: int, nodes0: seq<NodeImage>): Reader {
    Reader(Running, false, false, false, HeaderShow(v, showIndex, |nodes0|), true, nodes0)
  }

  lemma HeaderRun(v: Reading, showIndex: int, env: Env, nodes0: seq<NodeImage>)
    requires env.io.scan("1") == (1.0, 1)
    ensures Run(v, Start(nodes0), Trims(HeaderLines(showIndex)), env)
         == HeaderDone(v, showIndex, nodes0)
  {
    var st0 := Start(nodes0);
    var st2 := st0.(waiting := false, versionOK := true);
    var tail: seq<string> := if showIndex == 0 then [ShowLine] else [];
    HeaderTrims(showIndex);
    HeaderPrefixRun(v, st0, tail, env);
    assert Run(v, st0, Trims(HeaderLines(showIndex)), env) == Run(v, st2, tail, env);
    if showIndex == 0 {
      ShowStep(v, st2, env);
      RunCons(v, st2, ShowLine, [], env);
    }
  }

  lemma HeaderPrefixRun(v: Reading, st0: Reader, tail: seq<string>, env: Env)
    requires Coherent(st0) && st0.status == Running && st0.waiting && !st0.node
    requires env.io.scan("1") == (1.0, 1)
    ensures Run(v, st0, ["[GIPS]"] + (["version = 1"] + tail), env)
         == Run(v, st0.(waiting := false, versionOK := true), tail, env)
  {
    GipsStep(v, st0, env);
    var st1 := st0.(waiting := false);
    VersionStep(v, st1, env);
    RunCons(v, st0, "[GIPS]", ["version = 1"] + tail, env);
    RunCons(v, st1, "version = 1", tail, env);
  }

  lemma GipsStep(v: Reading, st: Reader, env: Env)
    requires Coherent(st) && st.waiting
    ensures TrimLine("[GIPS]") == "[GIPS]"
    ensures Step(v, st, "[GIPS]", env) == st.(waiting := false)
  {
    var line := "[GIPS]";
    assert |line| == 6 && line[0] == '[' && line[5] == ']';
    assert line[1..|line| - 1] == "GIPS";
    StepHeader(v, st, line, env);
    TrimExact(line);
  }

  /** A `[name]` line opens a section. */
  lemma StepHeader(v: Reading, st: Reader, line: string, env: Env)
    requires Coherent(st) && IsHeader(line)
    ensures Step(v, st, line, env) == Section(st, line[1..|line| - 1], env)
  {
  }

  lemma HeaderTrims(showIndex: int)
    ensures Trims(HeaderLines(showIndex))
         == ["[GIPS]"] + (["version = 1"] + if showIndex == 0 then [ShowLine] else [])
  {
    TrimExact("[GIPS]");
    VersionLineTrimmed();
    ShowLineTrimmed();
    var tail: seq<string> := if showIndex == 0 then [ShowLine] else [];
    TrimsUnchanged("[GIPS]", "version = 1", tail);
  }

  /** Lines that trimming leaves alone. */
  lemma TrimsUnchanged(a: string, b: string, tail: seq<string>)
    requires TrimLine(a) == a && TrimLine(b) == b
    requires forall i :: 0 <= i < |tail| ==> TrimLine(tail[i]) == tail[i]
    ensures Trims([a, b] + tail) == [a] + ([b] + tail)
  {
    var ls := [a, b] + tail;
    TrimsCons(ls);
    assert ls[1..] == [b] + tail;
    TrimsCons([b] + tail);
    assert ([b] + tail)[1..] == tail;
    MapFixed(TrimLine, tail, Trims(tail));
  }

  /** Mapping a function that fixes every element leaves the sequence as it was. */
  lemma MapFixed(f: string -> string, ls: seq<string>, r: seq<string>)
    requires |r| == |ls| && forall i :: 0 <= i < |ls| ==> r[i] == f(ls[i])
    requires forall i :: 0 <= i < |ls| ==> f(ls[i]) == ls[i]
    ensures r == ls
  {
  }

  lemma VersionLineTrimmed()
    ensures TrimLine("version = 1") == "version = 1"
  {
    assert "version = 1" == "version" + " = " + "1";
    PseudoKeyLine(AsWritten, "version", "1");
  }

  lemma ShowLineTrimmed()
    ensures TrimLine(ShowLine) == ShowLine
  {
    assert ShowLine == ".show" + " = " + "1";
    PseudoKeyLine(AsWritten, ".show", "1");
  }

  /** Parameter names as the shader loader produces them: identifiers. */
  predicate IdentNames(ps: seq<Parameter>) {
    && (forall j :: 0 <= j < |ps| ==> ps[j].name != [] && (IsAlpha(ps[j].name[0]) || ps[j].name[0] == '_'))
    && (forall j, k :: 0 <= j < |ps| && 0 <= k < |ps[j].name| ==> IsIdent(ps[j].name[k]))
  }

  lemma ParamLinesInert(ps: seq<Parameter>, io: TextCodec)
    requires IdentNames(ps)
    ensures forall i :: 0 <= i < |ps| ==> InertLine(Trims(ParamLines(ps, io))[i])
  {
    forall i | 0 <= i < |ps|
      ensures InertLine(Trims(ParamLines(ps, io))[i])
    {
      var l := ParamLine(ps[i], io);
      assert l[0] == ps[i].name[0];
      TrimStart(l);
    }
  }

  lemma FilesSnoc(a: seq<NodeImage>, x: NodeImage)
    ensures Files(a + [x]) == Files(a) + [x.filename]
    ensures Flags(a + [x]) == Flags(a) + [x.enabled]
  {
  }

  /** The sketch a node section leaves: the node appended (to an emptied pipeline for the first), its flag, and its `.show`. */
  function AfterNode(st: Reader, showIndex: int, i: nat, count: nat, n: NodeImage, io: TextCodec): Sketch {
    var base := if st.node then st.nodes else [];
    Sketch(Running, false, true, true, if showIndex == i + 1 && i + 1 < count then |base| + 1 else st.showIndex,
           true, Files(base) + [Resolve(io, io.relPath(n.filename))], Flags(base) + [n.enabled])
  }

  lemma SketchAfterNode(st: Reader, showIndex: int, i: nat, count: nat, n: NodeImage, io: TextCodec, last: NodeImage)
    requires st.status == Running && !st.waiting && st.versionOK
    requires last.filename == Resolve(io, io.relPath(n.filename)) && last.enabled == n.enabled
    ensures SketchOf(Opened(st, showIndex == i + 1 && i + 1 < count, last)) == AfterNode(st, showIndex, i, count, n, io)
  {
    FilesSnoc(if st.node then st.nodes else [], last);
  }

  lemma NodeHeadRun(v: Reading, st: Reader, rel: string, env: Env)
    requires Coherent(st) && st.status == Running && !st.waiting && st.versionOK && env.initOK
    ensures Run(v, st, Trims(["", "[" + rel + "]"]), env) == Opened(st, false, env.load(Resolve(env.io, rel)))
  {
    var hdr := "[" + rel + "]";
    assert hdr[0] == '[' && hdr[|hdr| - 1] == ']' && hdr[1..|hdr| - 1] == rel;
    TrimExact(hdr);
    LeadBlanksAt("", 0);
    assert Trims(["", hdr]) == [""] + [hdr];
    RunCons(v, st, "", [hdr], env);
    RunCons(v, st, hdr, [], env);
  }

  /** `.show = 1` in a node section selects the node just appended. */
  lemma ShowOpened(v: Reading, st: Reader, last: NodeImage)
    ensures var o := Opened(st, false, last);
      o.(showIndex := if v == Corrected && !o.cleared then 0 else |o.nodes|) == Opened(st, true, last)
  {
  }

  /** The path header and the optional `.show = 1` of a node section. */
  lemma NodeOpenRun(v: Reading, st: Reader, show: bool, rel: string, env: Env)
    requires Coherent(st) && st.status == Running && !st.waiting && st.versionOK && env.initOK
    requires env.io.scan("1") == (1.0, 1)
    ensures Run(v, st, Trims(["", "[" + rel + "]"]) + Trims(if show then [ShowLine] else []), env)
         == Opened(st, show, env.load(Resolve(env.io, rel)))
  {
    var head := ["", "[" + rel + "]"];
    var tail: seq<string> := if show then [ShowLine] else [];
    RunAppend(v, st, Trims(head), Trims(tail), env);
    NodeHeadRun(v, st, rel, env);
    var added := env.load(Resolve(env.io, rel));
    var st1 := Opened(st, false, added);
    if show {
      ShowStep(v, st1, env);
      ShowOpened(v, st, added);
      assert Trims(tail) == [ShowLine] + [];
      RunCons(v, st1, ShowLine, [], env);
    }
  }

  /** The optional `.enabled = 0` of a node section. */
  lemma DisabledRun(v: Reading, st: Reader, enabled: bool, env: Env)
    requires Coherent(st) && st.status == Running && !st.waiting && st.node
    requires env.io.scan("0") == (0.0, 1)
    ensures Run(v, st, Trims(if !enabled then [DisabledLine] else []), env)
         == if enabled then st else SetLast(st, Last(st).(enabled := false))
  {
    if !enabled {
      DisableStep(v, st, env);
      assert Trims([DisabledLine]) == [DisabledLine] + [];
      RunCons(v, st, DisabledLine, [], env);
    }
  }

  /** The lines of a node section before its parameters. */
  function NodeOpening(showIndex: int, i: nat, count: nat, n: NodeImage, io: TextCodec): seq<string> {
    ["", "[" + io.relPath(n.filename) + "]"]
      + (if showIndex == i + 1 && i + 1 < count then [ShowLine] else [])
      + (if !n.enabled then [DisabledLine] else [])
  }

  lemma NodeLinesSplit(showIndex: int, i: nat, count: nat, n: NodeImage, io: TextCodec)
    ensures Trims(NodeLines(showIndex, i, count, n, io))
         == Trims(NodeOpening(showIndex, i, count, n, io)) + Trims(ParamLines(n.params, io))
    ensures Trims(NodeOpening(showIndex, i, count, n, io))
         == (Trims(["", "[" + io.relPath(n.filename) + "]"]) + Trims(if showIndex == i + 1 && i + 1 < count then [ShowLine] else []))
            + Trims(if !n.enabled then [DisabledLine] else [])
  {
    var head := ["", "[" + io.relPath(n.filename) + "]"];
    var show: seq<string> := if showIndex == i + 1 && i + 1 < count then [ShowLine] else [];
    var dis: seq<string> := if !n.enabled then [DisabledLine] else [];
    TrimsAppend(NodeOpening(showIndex, i, count, n, io), ParamLines(n.params, io));
    TrimsAppend(head + show, dis);
    TrimsAppend(head, show);
  }

  /** The reader after the opening lines of a node section: `last` appended, and the show index set if `show`. */
  function Opened(st: Reader, show: bool, last: NodeImage): Reader {
    var base := if st.node then st.nodes else [];
    st.(nodes := base + [last], node := true, cleared := true, showIndex := if show then |base| + 1 else st.showIndex)
  }

  lemma OpeningRun(v: Reading, st: Reader, showIndex: int, i: nat, count: nat, n: NodeImage, env: Env)
    requires Coherent(st) && st.status == Running && !st.waiting && st.versionOK && env.initOK
    requires env.io.scan("1") == (1.0, 1) && env.io.scan("0") == (0.0, 1) && LoadsNamed(env)
    ensures Run(v, st, Trims(NodeOpening(showIndex, i, count, n, env.io)), env)
         == Opened(st, showIndex == i + 1 && i + 1 < count, env.load(Resolve(env.io, env.io.relPath(n.filename))).(enabled := n.enabled))
  {
    var io := env.io;
    var rel := io.relPath(n.filename);
    var show := showIndex == i + 1 && i + 1 < count;
    var opening := Trims(["", "[" + rel + "]"]) + Trims(if show then [ShowLine] else []);
    var dis := Trims(if !n.enabled then [DisabledLine] else []);
    NodeLinesSplit(showIndex, i, count, n, io);
    RunAppend(v, st, opening, dis, env);
    NodeOpenRun(v, st, show, rel, env);
    var added := env.load(Resolve(io, rel));
    DisabledRun(v, Opened(st, show, added), n.enabled, env);
    OpenedFlag(st, show, added, n.enabled);
  }

  lemma OpenedFlag(st: Reader, show: bool, added: NodeImage, e: bool)
    requires added.enabled
    ensures var st2 := Opened(st, show, added);
      (if e then st2 else SetLast(st2, Last(st2).(enabled := false))) == Opened(st, show, added.(enabled := e))
  {
    var base := if st.node then st.nodes else [];
    assert (base + [added])[..|base|] == base;
  }


  /** A node section appends one node with the section's file and enabled flag, and sets `.show` where it says so. */
  lemma NodeRun(v: Reading, st: Reader, showIndex: int, i: nat, count: nat, n: NodeImage, env: Env)
    requires Coherent(st) && st.status == Running && !st.waiting && st.versionOK && env.initOK
    requires env.io.scan("1") == (1.0, 1) && env.io.scan("0") == (0.0, 1) && LoadsNamed(env)
    requires IdentNames(n.params)
    ensures SketchOf(Run(v, st, Trims(NodeLines(showIndex, i, count, n, env.io)), env)) == AfterNode(st, showIndex, i, count, n, env.io)
  {
    var io := env.io;
    var ps := Trims(ParamLines(n.params, io));
    var last := env.load(Resolve(io, io.relPath(n.filename))).(enabled := n.enabled);
    var st3 := Opened(st, showIndex == i + 1 && i + 1 < count, last);
    NodeLinesSplit(showIndex, i, count, n, io);
    RunAppend(v, st, Trims(NodeOpening(showIndex, i, count, n, io)), ps, env);
    OpeningRun(v, st, showIndex, i, count, n, env);
    ParamLinesInert(n.params, io);
    RunInert(v, st3, ps, env);
    SketchAfterNode(st, showIndex, i, count, n, io, last);
  }

  ///////////////////////////////////////////////////////////////////////////
  // reading what `serialize` wrote: the whole file

  /** The show index after `k` node sections. */
  function ShowAfter(v: Reading, showIndex: int, k: nat, count: nat, oldCount: nat): int {
    if 1 <= showIndex <= k && showIndex < count then showIndex else HeaderShow(v, showIndex, oldCount)
  }

  /** The files the reader loads for the first `k` nodes: each relative path resolved again. */
  function ResolvedFiles(io: TextCodec, ns: seq<NodeImage>, k: nat): (r: seq<string>)
    requires k <= |ns|
    ensures |r| == k && forall j :: 0 <= j < k ==> r[j] == Resolve(io, io.relPath(ns[j].filename))
  {
    seq(k, j requires 0 <= j < k => Resolve(io, io.relPath(ns[j].filename)))
  }

  function EnabledFlags(ns: seq<NodeImage>, k: nat): (r: seq<bool>)
    requires k <= |ns|
    ensures |r| == k && forall j :: 0 <= j < k ==> r[j] == ns[j].enabled
  {
    seq(k, j requires 0 <= j < k => ns[j].enabled)
  }

  predicate ReadableNodes(ns: seq<NodeImage>) {
    forall j :: 0 <= j < |ns| ==> IdentNames(ns[j].params)
  }

  /**
   * Reader facts the round trip needs: `1` and `0` read as numbers, the
   * pipeline initialises, and each loaded node names its file.
   */
  ghost predicate Cooperative(env: Env) {
    env.initOK && env.io.scan("1") == (1.0, 1) && env.io.scan("0") == (0.0, 1) && LoadsNamed(env)
  }

  /** The sketch after the first `k` node sections. */
  function NodesSketch(v: Reading, showIndex: int, ns: seq<NodeImage>, k: nat, io: TextCodec, oldCount: nat): Sketch
    requires k <= |ns|
  {
    Sketch(Running, false, true, true, ShowAfter(v, showIndex, k, |ns|, oldCount), true,
           ResolvedFiles(io, ns, k), EnabledFlags(ns, k))
  }

  /** The first node section empties the pipeline and appends node 0. */
  lemma FirstNodeRun(v: Reading, showIndex: int, ns: seq<NodeImage>, env: Env, nodes0: seq<NodeImage>)
    requires |ns| >= 1 && Cooperative(env) && ReadableNodes(ns)
    ensures SketchOf(Run(v, HeaderDone(v, showIndex, nodes0), Trims(NodesLines(showIndex, ns, 1, env.io)), env))
         == NodesSketch(v, showIndex, ns, 1, env.io, |nodes0|)
  {
    var h := HeaderDone(v, showIndex, nodes0);
    assert NodesLines(showIndex, ns, 1, env.io) == NodeLines(showIndex, 0, |ns|, ns[0], env.io);
    assert IdentNames(ns[0].params);
    NodeRun(v, h, showIndex, 0, |ns|, ns[0], env);
    FilesSnoc([], env.load(Resolve(env.io, env.io.relPath(ns[0].filename))).(enabled := ns[0].enabled));
  }

  lemma ResolvedSnoc(io: TextCodec, ns: seq<NodeImage>, k: nat)
    requires k < |ns|
    ensures ResolvedFiles(io, ns, k + 1) == ResolvedFiles(io, ns, k) + [Resolve(io, io.relPath(ns[k].filename))]
    ensures EnabledFlags(ns, k + 1) == EnabledFlags(ns, k) + [ns[k].enabled]
  {
  }

  /** The sketch after one more node section, in the terms of the first `k + 1` nodes. */
  lemma AfterNextNode(st: Reader, showIndex: int, ns: seq<NodeImage>, k: nat, io: TextCodec)
    requires k < |ns| && st.node && st.status == Running
    requires Files(st.nodes) == ResolvedFiles(io, ns, k) && Flags(st.nodes) == EnabledFlags(ns, k)
    ensures AfterNode(st, showIndex, k, |ns|, ns[k], io)
         == Sketch(Running, false, true, true, if showIndex == k + 1 && k + 1 < |ns| then k + 1 else st.showIndex, true,
                   ResolvedFiles(io, ns, k + 1), EnabledFlags(ns, k + 1))
  {
    assert |st.nodes| == k;
    ResolvedSnoc(io, ns, k);
  }

  /** Each further node section appends its node: node `k - 1` after the first `k - 1`. */
  lemma NextNodeRun(v: Reading, st: Reader, showIndex: int, ns: seq<NodeImage>, k: nat, env: Env, oldCount: nat)
    requires 2 <= k <= |ns| && Cooperative(env) && ReadableNodes(ns) && Coherent(st)
    requires SketchOf(st) == NodesSketch(v, showIndex, ns, k - 1, env.io, oldCount)
    ensures SketchOf(Run(v, st, Trims(NodeLines(showIndex, k - 1, |ns|, ns[k - 1], env.io)), env))
         == NodesSketch(v, showIndex, ns, k, env.io, oldCount)
  {
    var j := k - 1;
    assert IdentNames(ns[j].params);
    NodeRun(v, st, showIndex, j, |ns|, ns[j], env);
    AfterNextNode(st, showIndex, ns, j, env.io);
    ShowAfterNext(v, showIndex, j, |ns|, oldCount);
    assert j + 1 == k;
  }

  lemma ShowAfterNext(v: Reading, showIndex: int, k: nat, count: nat, oldCount: nat)
    requires 1 <= k < count
    ensures ShowAfter(v, showIndex, k + 1, count, oldCount)
         == if showIndex == k + 1 && k + 1 < count then k + 1 else ShowAfter(v, showIndex, k, count, oldCount)
  {
  }

  lemma NodesLinesSnoc(showIndex: int, ns: seq<NodeImage>, k: nat, io: TextCodec)
    requires 1 <= k <= |ns|
    ensures Trims(NodesLines(showIndex, ns, k, io))
         == Trims(NodesLines(showIndex, ns, k - 1, io)) + Trims(NodeLines(showIndex, k - 1, |ns|, ns[k - 1], io))
  {
    TrimsAppend(NodesLines(showIndex, ns, k - 1, io), NodeLines(showIndex, k - 1, |ns|, ns[k - 1], io));
  }

  lemma {:induction false} NodesRun(v: Reading, showIndex: int, ns: seq<NodeImage>, k: nat, env: Env, nodes0: seq<NodeImage>)
    requires 1 <= k <= |ns| && Cooperative(env) && ReadableNodes(ns)
    ensures SketchOf(Run(v, HeaderDone(v, showIndex, nodes0), Trims(NodesLines(showIndex, ns, k, env.io)), env))
         == NodesSketch(v, showIndex, ns, k, env.io, |nodes0|)
    decreases k, 1
  {
    if k == 1 {
      FirstNodeRun(v, showIndex, ns, env, nodes0);
    } else {
      NodesRunStep(v, showIndex, ns, k, env, nodes0);
    }
  }

  lemma NodesRunStep(v: Reading, showIndex: int, ns: seq<NodeImage>, k: nat, env: Env, nodes0: seq<NodeImage>)
    requires 2 <= k <= |ns| && Cooperative(env) && ReadableNodes(ns)
    ensures SketchOf(Run(v, HeaderDone(v, showIndex, nodes0), Trims(NodesLines(showIndex, ns, k, env.io)), env))
         == NodesSketch(v, showIndex, ns, k, env.io, |nodes0|)
    decreases k, 0
  {
    NodesRun(v, showIndex, ns, k - 1, env, nodes0);
    var io := env.io;
    var h := HeaderDone(v, showIndex, nodes0);
    var before := Trims(NodesLines(showIndex, ns, k - 1, io));
    var section := Trims(NodeLines(showIndex, k - 1, |ns|, ns[k - 1], io));
    NextNodeRun(v, Run(v, h, before, env), showIndex, ns, k, env, |nodes0|);
    NodesLinesSnoc(showIndex, ns, k, io);
    RunAppend(v, h, before, section, env);
  }

  /** Paths and numbers are written without line feeds. */
  ghost predicate LineFeedFree(io: TextCodec) {
    && (forall x :: '\n' !in io.show(x))
    && (forall f :: '\n' !in io.relPath(f))
  }

  lemma ShowNoLineFeed(io: TextCodec, x: real)
    requires LineFeedFree(io)
    ensures '\n' !in io.show(x)
  {
  }

  lemma NotInAppend(c: char, a: string, b: string)
    requires c !in a && c !in b
    ensures c !in a + b
  {
  }


  predicate NoLineFeeds(ls: seq<string>) {
    forall i :: 0 <= i < |ls| ==> '\n' !in ls[i]
  }

  lemma {:induction false} NumbersNoLineFeed(xs: seq<real>, io: TextCodec)
    requires |xs| >= 1 && LineFeedFree(io)
    ensures '\n' !in NumbersText(xs, io)
    decreases |xs|
  {
    ShowNoLineFeed(io, xs[0]);
    if |xs| > 1 {
      NumbersNoLineFeed(xs[1..], io);
      assert '\n' !in ", ";
      NotInAppend('\n', io.show(xs[0]) + ", ", NumbersText(xs[1..], io));
    }
  }

  lemma ParamLineNoLineFeed(p: Parameter, io: TextCodec)
    requires LineFeedFree(io)
    requires forall k :: 0 <= k < |p.name| ==> IsIdent(p.name[k])
    ensures '\n' !in ParamLine(p, io)
  {
    var xs := p.value[..SerialArity(p.ptype)];
    if IsColor(p.ptype) {
      HexBodyDigits(xs);
      assert '\n' !in HexBody(xs);
    } else {
      NumbersNoLineFeed(xs, io);
    }
  }

  lemma NoLineFeedsAppend(a: seq<string>, b: seq<string>)
    requires NoLineFeeds(a) && NoLineFeeds(b)
    ensures NoLineFeeds(a + b)
  {
    forall i | 0 <= i < |a + b|
      ensures '\n' !in (a + b)[i]
    {
      if i >= |a| {
        assert (a + b)[i] == b[i - |a|];
      }
    }
  }

  lemma ParamLinesNoLineFeeds(ps: seq<Parameter>, io: TextCodec)
    requires LineFeedFree(io) && IdentNames(ps)
    ensures NoLineFeeds(ParamLines(ps, io))
  {
    forall j | 0 <= j < |ps|
      ensures '\n' !in ParamLines(ps, io)[j]
    {
      ParamLineNoLineFeed(ps[j], io);
    }
  }

  lemma NodeLinesNoLineFeeds(showIndex: int, i: nat, count: nat, n: NodeImage, io: TextCodec)
    requires LineFeedFree(io) && IdentNames(n.params)
    ensures NoLineFeeds(NodeLines(showIndex, i, count, n, io))
  {
    var path := io.relPath(n.filename);
    assert '\n' !in path;
    NotInAppend('\n', "[", path);
    NotInAppend('\n', "[" + path, "]");
    var head := ["", "[" + path + "]"];
    assert NoLineFeeds(head);
    var show: seq<string> := if showIndex == i + 1 && i + 1 < count then [ShowLine] else [];
    var disabled: seq<string> := if !n.enabled then [DisabledLine] else [];
    assert NoLineFeeds(show);
    assert NoLineFeeds(disabled);
    ParamLinesNoLineFeeds(n.params, io);
    NoLineFeedsAppend(head, show);
    NoLineFeedsAppend(head + show, disabled);
    NoLineFeedsAppend(head + show + disabled, ParamLines(n.params, io));
  }

  lemma {:induction false} NodesNoLineFeeds(showIndex: int, ns: seq<NodeImage>, k: nat, io: TextCodec)
    requires k <= |ns| && LineFeedFree(io) && ReadableNodes(ns)
    ensures NoLineFeeds(NodesLines(showIndex, ns, k, io))
  {
    if k > 0 {
      NodesNoLineFeeds(showIndex, ns, k - 1, io);
      NodeLinesNoLineFeeds(showIndex, k - 1, |ns|, ns[k - 1], io);
      NoLineFeedsAppend(NodesLines(showIndex, ns, k - 1, io), NodeLines(showIndex, k - 1, |ns|, ns[k - 1], io));
    }
  }

  /** The lines the reader sees in a serialized pipeline: the trimmed header, then the trimmed node sections. */
  lemma SerializedLines(v: Reading, showIndex: int, ns: seq<NodeImage>, io: TextCodec, eol: string)
    requires eol == CRLF || (v == Corrected && eol == "\n")
    requires LineFeedFree(io) && ReadableNodes(ns)
    ensures Lines(v, Join(SerializeLines(showIndex, ns, io), eol))
         == Trims(HeaderLines(showIndex)) + Trims(NodesLines(showIndex, ns, |ns|, io))
  {
    var header := HeaderLines(showIndex);
    var body := NodesLines(showIndex, ns, |ns|, io);
    NodesNoLineFeeds(showIndex, ns, |ns|, io);
    assert NoLineFeeds(header);
    NoLineFeedsAppend(header, body);
    JoinLines(v, header + body, eol);
    TrimsAppend(header, body);
  }

  /** Running the reader over those lines. */
  lemma SerializedRun(v: Reading, showIndex: int, ns: seq<NodeImage>, env: Env, nodes0: seq<NodeImage>)
    requires |ns| >= 1 && Cooperative(env) && ReadableNodes(ns)
    ensures SketchOf(Run(v, Start(nodes0), Trims(HeaderLines(showIndex)) + Trims(NodesLines(showIndex, ns, |ns|, env.io)), env))
         == NodesSketch(v, showIndex, ns, |ns|, env.io, |nodes0|)
  {
    var h := HeaderDone(v, showIndex, nodes0);
    RunAppend(v, Start(nodes0), Trims(HeaderLines(showIndex)), Trims(NodesLines(showIndex, ns, |ns|, env.io)), env);
    HeaderRun(v, showIndex, env, nodes0);
    NodesRun(v, showIndex, ns, |ns|, env, nodes0);
  }

  /** What `unserialize` returns from a running reader, read off its sketch. */
  lemma FinishSketch(st: Reader, show: int, files: seq<string>, flags: seq<bool>)
    requires SketchOf(st) == Sketch(Running, false, true, true, show, true, files, flags)
    ensures Finish(st).outcome == Returned(if show >= 0 then show else |files|)
    ensures |Finish(st).nodes| == |files| == |flags|
    ensures forall j :: 0 <= j < |files| ==> Finish(st).nodes[j].filename == files[j]
    ensures forall j :: 0 <= j < |files| ==> Finish(st).nodes[j].enabled == flags[j]
  {
    assert Files(st.nodes) == files && Flags(st.nodes) == flags;
  }

  /** What `unserialize` returns after reading `k` = all node sections. */
  function ReturnedShow(v: Reading, showIndex: int, count: nat, oldCount: nat): int {
    var s := ShowAfter(v, showIndex, count, count, oldCount);
    if s >= 0 then s else count
  }

  /**
   * Reading back what `serialize` wrote: one node per section, in order, each
   * loaded from its relative path resolved again, each with its enabled
   * flag, and the show index returned — except that, as written, a show
   * index of 0 reads back as the old pipeline's node count, and a file with
   * bare LF line ends is not read past its first line. A pipeline of no
   * nodes does not read back as empty: see `EmptyPipelineKeepsNodes`.
   */
  lemma RoundTrip(v: Reading, showIndex: int, ns: seq<NodeImage>, env: Env, nodes0: seq<NodeImage>, eol: string)
    requires eol == CRLF || (v == Corrected && eol == "\n")
    requires |ns| >= 1 && Cooperative(env) && LineFeedFree(env.io) && ReadableNodes(ns)
    ensures var r := ReadSpec(v, Join(SerializeLines(showIndex, ns, env.io), eol), env, nodes0);
      && r.outcome == Returned(ReturnedShow(v, showIndex, |ns|, |nodes0|))
      && |r.nodes| == |ns|
      && (forall j :: 0 <= j < |ns| ==> r.nodes[j].filename == Resolve(env.io, env.io.relPath(ns[j].filename)))
      && (forall j :: 0 <= j < |ns| ==> r.nodes[j].enabled == ns[j].enabled)
  {
    var io := env.io;
    var h := HeaderDone(v, showIndex, nodes0);
    var data := Join(SerializeLines(showIndex, ns, io), eol);
    SerializedLines(v, showIndex, ns, io, eol);
    SerializedRun(v, showIndex, ns, env, nodes0);
    assert Lines(v, data) != [];
    assert data != [];
    var st := Run(v, Start(nodes0), Lines(v, data), env);
    FinishSketch(st, ShowAfter(v, showIndex, |ns|, |ns|, |nodes0|), ResolvedFiles(io, ns, |ns|), EnabledFlags(ns, |ns|));
  }

  /**
   * Reading back a saved empty pipeline: `clear()` only runs at the first
   * node section, so the pipeline keeps the nodes it held, and their count
   * is returned unless the header marked show index 0.
   */
  lemma EmptyPipelineKeepsNodes(v: Reading, showIndex: int, env: Env, nodes0: seq<NodeImage>, eol: string)
    requires eol == CRLF || (v == Corrected && eol == "\n")
    requires Cooperative(env) && LineFeedFree(env.io)
    ensures var r := ReadSpec(v, Join(SerializeLines(showIndex, [], env.io), eol), env, nodes0);
      && r.nodes == nodes0
      && r.outcome == Returned(if HeaderShow(v, showIndex, |nodes0|) >= 0 then HeaderShow(v, showIndex, |nodes0|) else |nodes0|)
  {
    var io := env.io;
    SerializedLines(v, showIndex, [], io, eol);
    assert NodesLines(showIndex, [], 0, io) == [];
    assert Trims(HeaderLines(showIndex)) + Trims([]) == Trims(HeaderLines(showIndex));
    HeaderRun(v, showIndex, env, nodes0);
    assert Join(SerializeLines(showIndex, [], io), eol) != [];
  }

  ///////////////////////////////////////////////////////////////////////////
  // reading back what `serialize` wrote: parameter values

  /**
   * A number that `ostream` writes and `strtof` reads back whole: the text
   * is non-empty, starts with no '#', holds no separator, and `strtof`
   * stops at its end whether the end of the value or a separator follows.
   */
  ghost predicate ReadsBack(io: TextCodec, x: real) {
    && io.show(x) != [] && io.show(x)[0] != '#'
    && (forall j :: 0 <= j < |io.show(x)| ==> !IsNumSep(io.show(x)[j]))
    && (forall rest :: rest == [] || IsNumSep(rest[0]) ==> io.scan(io.show(x) + rest) == (x, |io.show(x)|))
  }

  ghost predicate AllReadBack(io: TextCodec, xs: seq<real>) {
    forall i :: 0 <= i < |xs| ==> ReadsBack(io, xs[i])
  }

  lemma AllReadBackTail(io: TextCodec, xs: seq<real>)
    requires |xs| >= 1 && AllReadBack(io, xs)
    ensures ReadsBack(io, xs[0]) && AllReadBack(io, xs[1..])
  {
    forall i | 0 <= i < |xs[1..]| ensures ReadsBack(io, xs[1..][i]) {
      assert xs[1..][i] == xs[i + 1];
    }
  }

  /** The written numbers of a parameter all read back (a colour is written as hex digits instead). */
  ghost predicate WrittenExactly(io: TextCodec, p: Parameter) {
    !IsColor(p.ptype) ==> forall c :: 0 <= c < SerialArity(p.ptype) ==> ReadsBack(io, p.value[c])
  }

  /** The components a written parameter reads back as: its numbers, or its colour's bytes over 255. */
  function ReadBack(p: Parameter): (r: seq<real>)
    ensures |r| == SerialArity(p.ptype)
    ensures !IsColor(p.ptype) ==> r == p.value[..SerialArity(p.ptype)]
  {
    var xs := p.value[..SerialArity(p.ptype)];
    if IsColor(p.ptype) then Channels(xs) else xs
  }

  lemma {:induction false} NumbersTextEnds(xs: seq<real>, io: TextCodec)
    requires |xs| >= 1 && AllReadBack(io, xs)
    ensures var t := NumbersText(xs, io);
      t != [] && io.show(xs[0]) != [] && t[0] == io.show(xs[0])[0] && !IsNumSep(t[|t| - 1])
    decreases |xs|
  {
    var t := NumbersText(xs, io);
    var s := io.show(xs[0]);
    assert ReadsBack(io, xs[0]);
    if |xs| > 1 {
      var u := NumbersText(xs[1..], io);
      AllReadBackTail(io, xs);
      NumbersTextEnds(xs[1..], io);
      assert t == s + ", " + u;
      assert t[|t| - 1] == u[|u| - 1];
      assert t[0] == s[0];
    } else {
      assert !IsNumSep(s[|s| - 1]);
    }
  }

  /** One written number followed by ", " and more text: `strtof` stops at the comma, and the separators are skipped. */
  lemma NumberThenMore(io: TextCodec, x: real, u: string)
    requires ReadsBack(io, x) && u != [] && !IsNumSep(u[0])
    ensures var value := io.show(x) + ", " + u;
      io.scan(value).0 == x && value[Consumed(io, value)..] == ", " + u && SkipSeps(", " + u) == u
  {
    var s := io.show(x);
    var value := s + ", " + u;
    assert value == s + (", " + u);
    assert (", " + u)[0] == ',';
    assert io.scan(value) == (x, |s|);
    assert value[|s|..] == ", " + u;
    assert (", " + u)[1..] == " " + u && (" " + u)[1..] == u;
    assert SkipSeps(u) == u;
    assert SkipSeps(" " + u) == SkipSeps(u);
  }

  /** The last written number: `strtof` reads it to the end. */
  lemma NumberAlone(io: TextCodec, x: real)
    requires ReadsBack(io, x)
    ensures var s := io.show(x);
      io.scan(s).0 == x && s[Consumed(io, s)..] == []
  {
    var s := io.show(x);
    assert s + [] == s;
    assert io.scan(s + []) == (x, |s|);
  }

  /** One turn of the number-list loop that reads `x` and goes on at `next`. */
  lemma NumberListMore(io: TextCodec, value: string, room: nat, x: real, next: string, ys: seq<real>)
    requires room >= 2 && io.scan(value).0 == x
    requires var end := value[Consumed(io, value)..]; end != [] && IsNumSep(end[0]) && SkipSeps(end) == next
    requires next != [] && NumberList(io, next, room - 1) == NumOk(ys, [])
    ensures NumberList(io, value, room) == NumOk([x] + ys, [])
  {
  }

  lemma NumbersReadCons(io: TextCodec, x: real, u: string, ys: seq<real>, room: nat)
    requires room >= 2 && ReadsBack(io, x) && u != [] && !IsNumSep(u[0])
    requires NumberList(io, u, room - 1) == NumOk(ys, [])
    ensures NumberList(io, io.show(x) + ", " + u, room) == NumOk([x] + ys, [])
  {
    var value := io.show(x) + ", " + u;
    NumberThenMore(io, x, u);
    var end := value[Consumed(io, value)..];
    assert IsNumSep(end[0]);
    NumberListMore(io, value, room, x, u, ys);
  }

  lemma NumbersReadOne(xs: seq<real>, io: TextCodec, room: nat)
    requires |xs| == 1 <= room && AllReadBack(io, xs)
    ensures NumberList(io, NumbersText(xs, io), room) == NumOk(xs, [])
  {
    assert ReadsBack(io, xs[0]);
    NumberAlone(io, xs[0]);
    assert xs == [xs[0]];
  }

  /** The number-list loop reads the numbers `serialize` wrote, and nothing is left over. */
  lemma {:induction false} NumbersRead(xs: seq<real>, io: TextCodec, room: nat)
    requires 1 <= |xs| <= room && AllReadBack(io, xs)
    ensures NumberList(io, NumbersText(xs, io), room) == NumOk(xs, [])
    decreases |xs|
  {
    if |xs| == 1 {
      NumbersReadOne(xs, io, room);
    } else {
      AllReadBackTail(io, xs);
      NumbersRead(xs[1..], io, room - 1);
      NumbersReadStep(xs, io, room);
    }
  }

  /** The inductive step of `NumbersRead`: the first number, then the numbers after it. */
  lemma NumbersReadStep(xs: seq<real>, io: TextCodec, room: nat)
    requires 2 <= |xs| <= room && AllReadBack(io, xs)
    requires NumberList(io, NumbersText(xs[1..], io), room - 1) == NumOk(xs[1..], [])
    ensures NumberList(io, NumbersText(xs, io), room) == NumOk(xs, [])
  {
    var u := NumbersText(xs[1..], io);
    AllReadBackTail(io, xs);
    NumbersTextEnds(xs[1..], io);
    assert NumbersText(xs, io) == io.show(xs[0]) + ", " + u;
    NumbersReadCons(io, xs[0], u, xs[1..], room);
    assert [xs[0]] + xs[1..] == xs;
  }

  /** The value text of a parameter line reads back as `ReadBack`, and has no blank at either end. */
  lemma ValueTextRead(p: Parameter, io: TextCodec)
    requires WrittenExactly(io, p)
    ensures var t := ValueText(p, io);
      && t != [] && !IsSpace(t[0]) && !IsSpace(t[|t| - 1])
      && ValueOf(io, t) == Components(ReadBack(p), false)
  {
    var xs := p.value[..SerialArity(p.ptype)];
    if IsColor(p.ptype) {
      ColorTextRead(xs);
    } else {
      assert AllReadBack(io, xs) by {
        forall i | 0 <= i < |xs| ensures ReadsBack(io, xs[i]) {
          assert xs[i] == p.value[i];
        }
      }
      NumbersTextRead(xs, io);
    }
  }

  lemma ColorTextRead(xs: seq<real>)
    requires |xs| == 3 || |xs| == 4
    ensures var t := ['#'] + HexBody(xs);
      && !IsSpace(t[|t| - 1])
      && t[1..] == HexBody(xs) && HexColor(t[1..]) == Some(Channels(xs))
  {
    var t := ['#'] + HexBody(xs);
    HexRoundTrip(xs);
    HexBodyDigits(xs);
    assert t[1..] == HexBody(xs);
    assert t[|t| - 1] == HexBody(xs)[|HexBody(xs)| - 1];
  }

  lemma NumbersTextRead(xs: seq<real>, io: TextCodec)
    requires 1 <= |xs| <= 4 && AllReadBack(io, xs)
    ensures var t := NumbersText(xs, io);
      && t != [] && !IsSpace(t[0]) && !IsSpace(t[|t| - 1]) && t[0] != '#'
      && ValueOf(io, t) == Components(xs, false)
  {
    NumbersTextEnds(xs, io);
    NumbersRead(xs, io, 4);
    AllReadBackTail(io, xs);
  }

  /** A parameter name as the shader loader produces it. */
  predicate IdentName(name: string) {
    name != [] && (IsAlpha(name[0]) || name[0] == '_') && forall k :: 0 <= k < |name| ==> IsIdent(name[k])
  }

  /** An identifier is a key `unserialize` splits off whole: no '=', no blank at either end, no comment or section mark. */
  lemma IdentKey(name: string)
    requires IdentName(name)
    ensures name != [] && '=' !in name && !IsSpace(name[0]) && !IsSpace(name[|name| - 1])
    ensures name[0] != ';' && name[0] != '#' && name[0] != '[' && name[0] != '.'
  {
    forall k | 0 <= k < |name| ensures name[k] != '=' {
      assert IsIdent(name[k]);
    }
    assert IsIdent(name[|name| - 1]);
  }

  /** A `name = value` line of `serialize` is read as that value applied to that name. */
  lemma ParamLineStep(v: Reading, st: Reader, p: Parameter, env: Env)
    requires Coherent(st) && st.status == Running && !st.waiting
    requires IdentName(p.name) && WrittenExactly(env.io, p)
    ensures TrimLine(ParamLine(p, env.io)) == ParamLine(p, env.io)
    ensures Step(v, st, ParamLine(p, env.io), env) == Apply(v, st, p.name, ReadBack(p))
  {
    var io := env.io;
    var line := ParamLine(p, io);
    var text := ValueText(p, io);
    ValueTextRead(p, io);
    IdentKey(p.name);
    AssignNumbersStep(v, st, p.name, text, ReadBack(p), env);
  }

  ///////////////////////////////////////////////////////////////////////////
  // reading back what `serialize` wrote: the parameters of each node

  /** The node `addNode(filename)` loads for a saved node: its relative path resolved again. */
  function Reload(env: Env, n: NodeImage): NodeImage {
    env.load(Resolve(env.io, env.io.relPath(n.filename)))
  }

  /** Two parameter lists with the same names and types, in the same order. */
  predicate SameShape(ps: seq<Parameter>, qs: seq<Parameter>) {
    |ps| == |qs| && forall k :: 0 <= k < |ps| ==> ps[k].name == qs[k].name && ps[k].ptype == qs[k].ptype
  }

  predicate DistinctNames(ps: seq<Parameter>) {
    forall j, k :: 0 <= j < k < |ps| ==> ps[j].name != ps[k].name
  }

  /**
   * A saved node whose parameters can be read back: identifier names, each
   * once, numbers that read back whole, and a shader that, loaded again,
   * declares the same names and types.
   */
  ghost predicate Rewritable(env: Env, n: NodeImage) {
    && IdentNames(n.params) && DistinctNames(n.params)
    && (forall k :: 0 <= k < |n.params| ==> WrittenExactly(env.io, n.params[k]))
    && SameShape(Reload(env, n).params, n.params)
  }

  /** The reloaded parameters `ps` after the first `i` lines written for `qs`: each read back over its default. */
  function ReadInto(ps: seq<Parameter>, qs: seq<Parameter>, i: nat): (r: seq<Parameter>)
    ensures |r| == |ps|
  {
    seq(|ps|, k requires 0 <= k < |ps| =>
      if k < i && k < |qs| then ps[k].(value := Fill(ReadBack(qs[k]), ps[k].defaultValue)) else ps[k])
  }

  /** A saved node as reading its section leaves it. */
  function Reloaded(env: Env, n: NodeImage): NodeImage {
    var l := Reload(env, n);
    l.(enabled := n.enabled, params := ReadInto(l.params, n.params, |n.params|))
  }

  lemma SetLastTwice(st: Reader, a: NodeImage, b: NodeImage)
    requires Coherent(st) && st.node
    ensures SetLast(SetLast(st, a), b) == SetLast(st, b)
  {
    assert SetLast(st, a).nodes[..|st.nodes| - 1] == st.nodes[..|st.nodes| - 1];
  }

  lemma SetLastSame(st: Reader)
    requires Coherent(st) && st.node
    ensures SetLast(st, Last(st)) == st
  {
    assert st.nodes[..|st.nodes| - 1] + [Last(st)] == st.nodes;
  }

  /** Line `i` of the parameter lines applies to parameter `i` and to no other. */
  lemma ParamLineApplies(v: Reading, st: Reader, qs: seq<Parameter>, i: nat)
    requires Coherent(st) && st.node && 1 <= i <= |qs|
    requires IdentNames(qs) && DistinctNames(qs) && SameShape(Last(st).params, qs)
    ensures var ps := Last(st).params;
      var st1 := SetLast(st, Last(st).(params := ReadInto(ps, qs, i - 1)));
      Apply(v, st1, qs[i - 1].name, ReadBack(qs[i - 1])) == SetLast(st, Last(st).(params := ReadInto(ps, qs, i)))
  {
    var ps := Last(st).params;
    var n := Last(st);
    var a := n.(params := ReadInto(ps, qs, i - 1));
    var st1 := SetLast(st, a);
    var key := qs[i - 1].name;
    var rs := ReadInto(ps, qs, i - 1);
    ReadIntoFinds(ps, qs, i);
    assert key[0] != '.';
    assert key != ".show" && !IsEnableKey(key) by { assert key[0] != ".show"[0]; }
    var vnum := Fill(ReadBack(qs[i - 1]), rs[i - 1].defaultValue);
    var b := a.(params := rs[i - 1 := rs[i - 1].(value := vnum)]);
    ApplyParameterIs(v, st1, key, ReadBack(qs[i - 1]), i - 1);
    SetLastTwice(st, a, b);
    ReadIntoSnoc(ps, qs, i);
  }

  /** After the first `i - 1` lines, parameter `i - 1` is still the first one with its name. */
  lemma ReadIntoFinds(ps: seq<Parameter>, qs: seq<Parameter>, i: nat)
    requires 1 <= i <= |qs| && DistinctNames(qs) && SameShape(ps, qs)
    ensures FirstNamed(ReadInto(ps, qs, i - 1), qs[i - 1].name) == Some(i - 1)
  {
    var key := qs[i - 1].name;
    var rs := ReadInto(ps, qs, i - 1);
    assert forall k :: 0 <= k < |rs| ==> rs[k].name == qs[k].name;
    var f := FirstNamed(rs, key);
    assert rs[i - 1].name == key;
    if f.None? {
      assert false;
    }
  }

  /** Line `i` reads parameter `i - 1` over its default values. */
  lemma ReadIntoSnoc(ps: seq<Parameter>, qs: seq<Parameter>, i: nat)
    requires 1 <= i <= |qs| == |ps|
    ensures var rs := ReadInto(ps, qs, i - 1);
      rs[i - 1 := rs[i - 1].(value := Fill(ReadBack(qs[i - 1]), rs[i - 1].defaultValue))] == ReadInto(ps, qs, i)
  {
  }

  /** The first `i` parameter lines of a section, read into the node just opened. */
  lemma {:induction false} ParamsRun(v: Reading, st: Reader, qs: seq<Parameter>, i: nat, env: Env)
    requires Coherent(st) && st.status == Running && st.node && !st.waiting
    requires IdentNames(qs) && DistinctNames(qs) && (forall k :: 0 <= k < |qs| ==> WrittenExactly(env.io, qs[k]))
    requires SameShape(Last(st).params, qs) && i <= |qs|
    ensures Run(v, st, Trims(ParamLines(qs, env.io))[..i], env)
         == SetLast(st, Last(st).(params := ReadInto(Last(st).params, qs, i)))
    decreases i
  {
    if i == 0 {
      ParamsRunNone(v, st, qs, env);
    } else {
      ParamsRun(v, st, qs, i - 1, env);
      ParamsRunStep(v, st, qs, i, env);
    }
  }

  lemma ParamsRunNone(v: Reading, st: Reader, qs: seq<Parameter>, env: Env)
    requires Coherent(st) && st.node
    ensures Run(v, st, Trims(ParamLines(qs, env.io))[..0], env)
         == SetLast(st, Last(st).(params := ReadInto(Last(st).params, qs, 0)))
  {
    var ps := Last(st).params;
    assert Trims(ParamLines(qs, env.io))[..0] == [];
    assert ReadInto(ps, qs, 0) == ps;
    assert Last(st).(params := ps) == Last(st);
    SetLastSame(st);
  }

  lemma ParamsRunStep(v: Reading, st: Reader, qs: seq<Parameter>, i: nat, env: Env)
    requires Coherent(st) && st.status == Running && st.node && !st.waiting
    requires IdentNames(qs) && DistinctNames(qs) && 1 <= i <= |qs| && WrittenExactly(env.io, qs[i - 1])
    requires SameShape(Last(st).params, qs)
    requires Run(v, st, Trims(ParamLines(qs, env.io))[..i - 1], env)
          == SetLast(st, Last(st).(params := ReadInto(Last(st).params, qs, i - 1)))
    ensures Run(v, st, Trims(ParamLines(qs, env.io))[..i], env)
         == SetLast(st, Last(st).(params := ReadInto(Last(st).params, qs, i)))
  {
    var ls := Trims(ParamLines(qs, env.io));
    var st1 := SetLast(st, Last(st).(params := ReadInto(Last(st).params, qs, i - 1)));
    var q := qs[i - 1];
    assert IdentName(q.name);
    ParamLineStep(v, st1, q, env);
    TrimmedParamLine(qs, env.io, i - 1);
    RunSnoc(v, st, ls, i, env);
    ParamLineApplies(v, st, qs, i);
  }

  /** Running the first `i` lines is running the first `i - 1` and then line `i - 1`. */
  lemma RunSnoc(v: Reading, st: Reader, ls: seq<string>, i: nat, env: Env)
    requires Coherent(st) && 1 <= i <= |ls|
    ensures var mid := Run(v, st, ls[..i - 1], env);
      Run(v, st, ls[..i], env) == if mid.status == Running then Step(v, mid, ls[i - 1], env) else mid
  {
    PrefixSnoc(ls, i);
    RunAppend(v, st, ls[..i - 1], [ls[i - 1]], env);
    var mid := Run(v, st, ls[..i - 1], env);
    if mid.status == Running {
      RunCons(v, mid, ls[i - 1], [], env);
    }
  }

  /** Trimming leaves a parameter line of `serialize` as it is. */
  lemma TrimmedParamLine(qs: seq<Parameter>, io: TextCodec, k: nat)
    requires k < |qs|
    requires TrimLine(ParamLine(qs[k], io)) == ParamLine(qs[k], io)
    ensures Trims(ParamLines(qs, io))[k] == ParamLine(qs[k], io)
  {
  }


  lemma PrefixSnoc(ls: seq<string>, i: nat)
    requires 1 <= i <= |ls|
    ensures ls[..i] == ls[..i - 1] + [ls[i - 1]]
  {
  }

  lemma OpenedSetLast(st: Reader, show: bool, last: NodeImage, n: NodeImage)
    ensures Coherent(Opened(st, show, last)) && Opened(st, show, last).node
    ensures Last(Opened(st, show, last)) == last
    ensures SetLast(Opened(st, show, last), n) == Opened(st, show, n)
  {
    var base := if st.node then st.nodes else [];
    assert (base + [last])[..|base|] == base;
  }

  /** A node section reads back as the reloaded node with the section's flag and parameter values. */
  lemma NodeRunExact(v: Reading, st: Reader, showIndex: int, i: nat, count: nat, n: NodeImage, env: Env)
    requires Coherent(st) && st.status == Running && !st.waiting && st.versionOK && Cooperative(env)
    requires Rewritable(env, n)
    ensures Run(v, st, Trims(NodeLines(showIndex, i, count, n, env.io)), env)
         == Opened(st, showIndex == i + 1 && i + 1 < count, Reloaded(env, n))
  {
    var io := env.io;
    var show := showIndex == i + 1 && i + 1 < count;
    var ps := Trims(ParamLines(n.params, io));
    var last := env.load(Resolve(io, io.relPath(n.filename))).(enabled := n.enabled);
    var st3 := Opened(st, show, last);
    NodeLinesSplit(showIndex, i, count, n, io);
    RunAppend(v, st, Trims(NodeOpening(showIndex, i, count, n, io)), ps, env);
    OpeningRun(v, st, showIndex, i, count, n, env);
    OpenedSetLast(st, show, last, Reloaded(env, n));
    ParamsRunAll(v, st3, n.params, env);
  }

  /** Every parameter line written for `qs`, read in turn over the current node. */
  lemma ParamsRunAll(v: Reading, st: Reader, qs: seq<Parameter>, env: Env)
    requires Coherent(st) && st.status == Running && st.node && !st.waiting
    requires IdentNames(qs) && DistinctNames(qs) && (forall k :: 0 <= k < |qs| ==> WrittenExactly(env.io, qs[k]))
    requires SameShape(Last(st).params, qs)
    ensures Run(v, st, Trims(ParamLines(qs, env.io)), env)
         == SetLast(st, Last(st).(params := ReadInto(Last(st).params, qs, |qs|)))
  {
    var ps := Trims(ParamLines(qs, env.io));
    ParamsRun(v, st, qs, |qs|, env);
    assert ps[..|qs|] == ps;
  }

  /** The first `k` saved nodes, as reading leaves them. */
  function ReloadedNodes(env: Env, ns: seq<NodeImage>, k: nat): (r: seq<NodeImage>)
    requires k <= |ns|
    ensures |r| == k
  {
    seq(k, j requires 0 <= j < k => Reloaded(env, ns[j]))
  }

  lemma ReloadedSnoc(env: Env, ns: seq<NodeImage>, k: nat)
    requires 1 <= k <= |ns|
    ensures ReloadedNodes(env, ns, k) == ReloadedNodes(env, ns, k - 1) + [Reloaded(env, ns[k - 1])]
  {
  }

  lemma {:induction false} NodesExact(v: Reading, showIndex: int, ns: seq<NodeImage>, k: nat, env: Env, nodes0: seq<NodeImage>)
    requires 1 <= k <= |ns| && Cooperative(env) && ReadableNodes(ns)
    requires forall j :: 0 <= j < |ns| ==> Rewritable(env, ns[j])
    ensures SketchOf(Run(v, HeaderDone(v, showIndex, nodes0), Trims(NodesLines(showIndex, ns, k, env.io)), env))
         == NodesSketch(v, showIndex, ns, k, env.io, |nodes0|)
    ensures Run(v, HeaderDone(v, showIndex, nodes0), Trims(NodesLines(showIndex, ns, k, env.io)), env).nodes
         == ReloadedNodes(env, ns, k)
    decreases k, 1
  {
    if k == 1 {
      FirstNodeExact(v, showIndex, ns, env, nodes0);
      FirstNodeRun(v, showIndex, ns, env, nodes0);
    } else {
      NodesExactStep(v, showIndex, ns, k, env, nodes0);
    }
  }

  /** The first node section replaces the old nodes by node 0 as read back. */
  lemma FirstNodeExact(v: Reading, showIndex: int, ns: seq<NodeImage>, env: Env, nodes0: seq<NodeImage>)
    requires 1 <= |ns| && Cooperative(env) && Rewritable(env, ns[0])
    ensures Run(v, HeaderDone(v, showIndex, nodes0), Trims(NodesLines(showIndex, ns, 1, env.io)), env).nodes
         == ReloadedNodes(env, ns, 1)
  {
    var h := HeaderDone(v, showIndex, nodes0);
    assert NodesLines(showIndex, ns, 1, env.io) == NodeLines(showIndex, 0, |ns|, ns[0], env.io);
    NodeRunExact(v, h, showIndex, 0, |ns|, ns[0], env);
  }

  /** One more node section appends node `k - 1` as read back. */
  lemma NextNodeExact(v: Reading, st: Reader, showIndex: int, ns: seq<NodeImage>, k: nat, env: Env, oldCount: nat)
    requires 2 <= k <= |ns| && Cooperative(env) && Coherent(st) && Rewritable(env, ns[k - 1])
    requires SketchOf(st) == NodesSketch(v, showIndex, ns, k - 1, env.io, oldCount)
    requires st.nodes == ReloadedNodes(env, ns, k - 1)
    ensures Run(v, st, Trims(NodeLines(showIndex, k - 1, |ns|, ns[k - 1], env.io)), env).nodes
         == ReloadedNodes(env, ns, k)
  {
    assert st.status == Running && !st.waiting && st.node && st.versionOK;
    NodeRunExact(v, st, showIndex, k - 1, |ns|, ns[k - 1], env);
    ReloadedSnoc(env, ns, k);
  }

  lemma NodesExactStep(v: Reading, showIndex: int, ns: seq<NodeImage>, k: nat, env: Env, nodes0: seq<NodeImage>)
    requires 2 <= k <= |ns| && Cooperative(env) && ReadableNodes(ns)
    requires forall j :: 0 <= j < |ns| ==> Rewritable(env, ns[j])
    ensures SketchOf(Run(v, HeaderDone(v, showIndex, nodes0), Trims(NodesLines(showIndex, ns, k, env.io)), env))
         == NodesSketch(v, showIndex, ns, k, env.io, |nodes0|)
    ensures Run(v, HeaderDone(v, showIndex, nodes0), Trims(NodesLines(showIndex, ns, k, env.io)), env).nodes
         == ReloadedNodes(env, ns, k)
    decreases k, 0
  {
    NodesExact(v, showIndex, ns, k - 1, env, nodes0);
    var io := env.io;
    var h := HeaderDone(v, showIndex, nodes0);
    var before := Trims(NodesLines(showIndex, ns, k - 1, io));
    var section := Trims(NodeLines(showIndex, k - 1, |ns|, ns[k - 1], io));
    NextNodeExact(v, Run(v, h, before, env), showIndex, ns, k, env, |nodes0|);
    NextNodeRun(v, Run(v, h, before, env), showIndex, ns, k, env, |nodes0|);
    NodesLinesSnoc(showIndex, ns, k, io);
    RunAppend(v, h, before, section, env);
  }

  /** Reading back what `serialize` wrote leaves exactly the saved nodes as read back. */
  lemma ReadNodesExact(v: Reading, showIndex: int, ns: seq<NodeImage>, env: Env, nodes0: seq<NodeImage>, eol: string)
    requires eol == CRLF || (v == Corrected && eol == "\n")
    requires |ns| >= 1 && Cooperative(env) && LineFeedFree(env.io) && ReadableNodes(ns)
    requires forall j :: 0 <= j < |ns| ==> Rewritable(env, ns[j])
    ensures ReadSpec(v, Join(SerializeLines(showIndex, ns, env.io), eol), env, nodes0).nodes == ReloadedNodes(env, ns, |ns|)
  {
    var io := env.io;
    var data := Join(SerializeLines(showIndex, ns, io), eol);
    var header := Trims(HeaderLines(showIndex));
    var body := Trims(NodesLines(showIndex, ns, |ns|, io));
    SerializedLines(v, showIndex, ns, io, eol);
    assert Lines(v, data) != [];
    assert data != [];
    RunAppend(v, Start(nodes0), header, body, env);
    HeaderRun(v, showIndex, env, nodes0);
    NodesExact(v, showIndex, ns, |ns|, env, nodes0);
  }

  /** Parameter `k` of a saved node as read back: its written components, then the reloaded default. */
  lemma ReloadedValue(env: Env, n: NodeImage, k: nat)
    requires Rewritable(env, n) && k < |n.params|
    ensures |Reloaded(env, n).params| == |n.params|
    ensures Reloaded(env, n).params[k].value[..SerialArity(n.params[k].ptype)] == ReadBack(n.params[k])
    ensures Reloaded(env, n).params[k].value[SerialArity(n.params[k].ptype)..]
         == Reload(env, n).params[k].defaultValue[SerialArity(n.params[k].ptype)..]
  {
    var ps := Reload(env, n).params;
    assert Reloaded(env, n).params[k] == ps[k].(value := Fill(ReadBack(n.params[k]), ps[k].defaultValue));
  }

  /**
   * The nodes `rs` read back for the saved nodes `ns`: each comes back as
   * its shader loaded again, with the loader's messages only, and each
   * parameter's written components come back as written (a colour as its
   * bytes over 255), the rest from the reloaded parameter's defaults.
   */
  ghost predicate ValuesReadBack(env: Env, ns: seq<NodeImage>, rs: seq<NodeImage>) {
    && |rs| == |ns|
    && (forall j :: 0 <= j < |ns| ==>
          && rs[j].errors == Reload(env, ns[j]).errors
          && |rs[j].params| == |ns[j].params| == |Reload(env, ns[j]).params|)
    && (forall j, k :: 0 <= j < |ns| && 0 <= k < |ns[j].params| ==>
          && rs[j].params[k].value[..SerialArity(ns[j].params[k].ptype)] == ReadBack(ns[j].params[k])
          && rs[j].params[k].value[SerialArity(ns[j].params[k].ptype)..]
             == Reload(env, ns[j]).params[k].defaultValue[SerialArity(ns[j].params[k].ptype)..])
  }

  /** Reading back what `serialize` wrote restores every written parameter value. */
  lemma RoundTripValues(v: Reading, showIndex: int, ns: seq<NodeImage>, env: Env, nodes0: seq<NodeImage>, eol: string)
    requires eol == CRLF || (v == Corrected && eol == "\n")
    requires |ns| >= 1 && Cooperative(env) && LineFeedFree(env.io) && ReadableNodes(ns)
    requires forall j :: 0 <= j < |ns| ==> Rewritable(env, ns[j])
    ensures ValuesReadBack(env, ns, ReadSpec(v, Join(SerializeLines(showIndex, ns, env.io), eol), env, nodes0).nodes)
  {
    ReadNodesExact(v, showIndex, ns, env, nodes0, eol);
    ReloadedReadBack(env, ns);
  }

  lemma ReloadedReadBack(env: Env, ns: seq<NodeImage>)
    requires forall j :: 0 <= j < |ns| ==> Rewritable(env, ns[j])
    ensures ValuesReadBack(env, ns, ReloadedNodes(env, ns, |ns|))
  {
    var rs := ReloadedNodes(env, ns, |ns|);
    forall j | 0 <= j < |ns|
      ensures rs[j].errors == Reload(env, ns[j]).errors
      ensures |rs[j].params| == |ns[j].params| == |Reload(env, ns[j]).params|
    {
      assert Rewritable(env, ns[j]);
    }
    forall j, k | 0 <= j < |ns| && 0 <= k < |ns[j].params|
      ensures rs[j].params[k].value[..SerialArity(ns[j].params[k].ptype)] == ReadBack(ns[j].params[k])
      ensures rs[j].params[k].value[SerialArity(ns[j].params[k].ptype)..]
              == Reload(env, ns[j]).params[k].defaultValue[SerialArity(ns[j].params[k].ptype)..]
    {
      assert Rewritable(env, ns[j]);
      ReloadedValue(env, ns[j], k);
    }
  }

  ///////////////////////////////////////////////////////////////////////////
  // unserialize: what one assignment does

  /** A known parameter gets all four components: the parsed ones, then its own default values. */
  lemma ApplyParameter(v: Reading, st: Reader, key: string, xs: seq<real>, k: nat)
    requires Coherent(st) && st.node && 1 <= |xs| <= 4
    requires key != ".show" && !IsEnableKey(key)
    requires FirstNamed(Last(st).params, key) == Some(k)
    ensures var r := Apply(v, st, key, xs);
      var ps := Last(st).params;
      var qs := Last(r).params;
      && r.status == st.status && r.showIndex == st.showIndex
      && |r.nodes| == |st.nodes| && r.nodes[..|r.nodes| - 1] == st.nodes[..|st.nodes| - 1]
      && Last(r).errors == Last(st).errors && Last(r).enabled == Last(st).enabled && Last(r).filename == Last(st).filename
      && |qs| == |ps| && qs[k].value[..|xs|] == xs && qs[k].value[|xs|..] == ps[k].defaultValue[|xs|..]
      && qs[k] == ps[k].(value := qs[k].value)
      && (forall j :: 0 <= j < |ps| && j != k ==> qs[j] == ps[j])
  {
    var n := Last(st);
    var vnum := Fill(xs, n.params[k].defaultValue);
    ApplyParameterIs(v, st, key, xs, k);
    SetLastKeeps(st, n.(params := n.params[k := n.params[k].(value := vnum)]));
  }

  lemma ApplyParameterIs(v: Reading, st: Reader, key: string, xs: seq<real>, k: nat)
    requires Coherent(st) && st.node && 1 <= |xs| <= 4
    requires key != ".show" && !IsEnableKey(key)
    requires FirstNamed(Last(st).params, key) == Some(k)
    ensures var ps := Last(st).params;
      Apply(v, st, key, xs) == SetLast(st, Last(st).(params := ps[k := ps[k].(value := Fill(xs, ps[k].defaultValue))]))
  {
  }

  /** A key no parameter has is reported on the node, and nothing else changes. */
  lemma ApplyUnknown(v: Reading, st: Reader, key: string, xs: seq<real>)
    requires Coherent(st) && st.node && 1 <= |xs| <= 4
    requires key != ".show" && !IsEnableKey(key)
    requires FirstNamed(Last(st).params, key).None?
    ensures var r := Apply(v, st, key, xs);
      && r.status == st.status && |r.nodes| == |st.nodes| && r.nodes[..|r.nodes| - 1] == st.nodes[..|st.nodes| - 1]
      && Last(r).errors == Last(st).errors + [UnknownParameter(key)]
      && Last(r) == Last(st).(errors := Last(r).errors)
  {
  }

  /** `.enabled`, `.enable` and `.active` switch the node on exactly when the first value is over 0.5. */
  lemma ApplyEnable(v: Reading, st: Reader, key: string, xs: seq<real>)
    requires Coherent(st) && st.node && 1 <= |xs| <= 4 && IsEnableKey(key)
    ensures var r := Apply(v, st, key, xs);
      && r.status == st.status && |r.nodes| == |st.nodes| && r.nodes[..|r.nodes| - 1] == st.nodes[..|st.nodes| - 1]
      && (Last(r).enabled <==> xs[0] > 0.5)
      && Last(r) == Last(st).(enabled := Last(r).enabled)
  {
    var n := Last(st);
    ApplyEnableIs(v, st, key, xs);
    SetLastKeeps(st, n.(enabled := xs[0] > 0.5));
  }

  lemma ApplyEnableIs(v: Reading, st: Reader, key: string, xs: seq<real>)
    requires Coherent(st) && st.node && 1 <= |xs| <= 4 && IsEnableKey(key)
    ensures Apply(v, st, key, xs) == SetLast(st, Last(st).(enabled := xs[0] > 0.5))
  {
    assert key != ".show" by { assert key[1] != ".show"[1]; }
    forall d: Vec4 ensures Fill(xs, d)[0] == xs[0] {
      FillHead(xs, d);
    }
  }

  lemma FillHead(xs: seq<real>, d: Vec4)
    requires 1 <= |xs| <= 4
    ensures Fill(xs, d)[0] == xs[0]
  {
    var r := Fill(xs, d);
    assert r[..|xs|][0] == r[0];
  }

  /** `SetLast` leaves every node but the last, and every other field, as it was. */
  lemma SetLastKeeps(st: Reader, n: NodeImage)
    requires st.node && Coherent(st)
    ensures var r := SetLast(st, n);
      r == st.(nodes := r.nodes) && |r.nodes| == |st.nodes| && r.nodes[..|r.nodes| - 1] == st.nodes[..|st.nodes| - 1]
  {
    var r := SetLast(st, n);
    assert r.nodes[..|r.nodes| - 1] == st.nodes[..|st.nodes| - 1];
  }

  /**
   * More than four values inside a node: "too many values" is reported,
   * and the first four are applied all the same.
   */
  lemma TooManyAppliesFour(v: Reading, st: Reader, line: string, key: string, value: string, xs: seq<real>, env: Env)
    requires Coherent(st) && st.status == Running && st.node
    requires KeyValueOf(v, line) == KeyValue(key, value) && ValueOf(env.io, value) == Components(xs, true)
    ensures |xs| == 4
    ensures Assignment(v, st, line, env) == Apply(v, Report(st, TooManyValues(key)), key, xs)
  {
    assert value[0] != '#';
  }

  ///////////////////////////////////////////////////////////////////////////
  // unserialize: syntax errors, fatal in the `[GIPS]` section, reported in a node

  /** A line the loop skips: empty, or a `;` or `#` comment. */
  predicate Skipped(line: string) {
    line == [] || line[0] == ';' || line[0] == '#'
  }

  /** Before the first node, a line without '=' or with an empty value makes `unserialize` return -1. */
  lemma SyntaxErrorBeforeNode(v: Reading, st: Reader, line: string, env: Env)
    requires Coherent(st) && st.status == Running && !st.waiting && !st.node
    requires !Skipped(line) && !IsHeader(line) && !KeyValueOf(v, line).KeyValue?
    ensures Step(v, st, line, env) == st.(status := Rejected)
    ensures Run(v, Step(v, st, line, env), [], env).status == Rejected
  {
  }

  /** Inside a node, the same line only adds a message to that node, and reading goes on. */
  lemma SyntaxErrorInNode(v: Reading, st: Reader, line: string, env: Env)
    requires Coherent(st) && st.status == Running && !st.waiting && st.node
    requires !Skipped(line) && !IsHeader(line) && !KeyValueOf(v, line).KeyValue?
    ensures var r := Step(v, st, line, env);
      && r.status == Running && r.node && |r.nodes| == |st.nodes| && r.nodes[..|r.nodes| - 1] == st.nodes[..|st.nodes| - 1]
      && Last(r).errors == Last(st).errors + [match KeyValueOf(v, line) case Malformed(key) => SyntaxError(key) case NoValue(q) => EmptyValue(q) case KeyValue(_, _) => EmptyValue([])]
      && Last(r) == Last(st).(errors := Last(r).errors)
  {
    assert Step(v, st, line, env) == Assignment(v, st, line, env);
  }

  ///////////////////////////////////////////////////////////////////////////
  // unserialize: documents rejected with -1 and the pipeline untouched

  lemma {:induction false} RunSkips(v: Reading, st: Reader, cs: seq<string>, ls: seq<string>, env: Env)
    requires Coherent(st) && forall i :: 0 <= i < |cs| ==> Skipped(cs[i])
    ensures Run(v, st, cs + ls, env) == Run(v, st, ls, env)
    decreases |cs|
  {
    if cs != [] && st.status == Running {
      assert (cs + ls)[0] == cs[0] && (cs + ls)[1..] == cs[1..] + ls;
      RunSkips(v, st, cs[1..], ls, env);
    } else if cs != [] {
      RejectedStops(v, st, cs + ls, env);
      RejectedStops(v, st, ls, env);
    } else {
      assert cs + ls == ls;
    }
  }

  lemma RejectedStops(v: Reading, st: Reader, ls: seq<string>, env: Env)
    requires Coherent(st) && st.status != Running
    ensures Run(v, st, ls, env) == st
  {
  }

  /** What the loop makes of a rejected reader: -1, and the pipeline it had. */
  lemma RejectedRead(v: Reading, data: string, env: Env, nodes0: seq<NodeImage>, pre: seq<string>, st: Reader, rest: seq<string>)
    requires Coherent(st) && st.status == Rejected && st.nodes == nodes0
    requires Lines(v, data) == pre + rest
    requires Run(v, Start(nodes0), pre, env) == st
    ensures ReadSpec(v, data, env, nodes0) == ReadResult(Returned(-1), nodes0)
  {
    RunAppend(v, Start(nodes0), pre, rest, env);
    RejectedStops(v, st, rest, env);
  }

  /**
   * A document whose first line that is not blank or a comment is not
   * `[GIPS]` is rejected: `unserialize` returns -1 and the pipeline keeps
   * its nodes.
   */
  lemma NotGipsRejected(v: Reading, data: string, env: Env, nodes0: seq<NodeImage>, cs: seq<string>, l: string, rest: seq<string>)
    requires Lines(v, data) == cs + [l] + rest
    requires forall i :: 0 <= i < |cs| ==> Skipped(cs[i])
    requires !Skipped(l) && (IsHeader(l) ==> l[1..|l| - 1] != "GIPS")
    ensures ReadSpec(v, data, env, nodes0) == ReadResult(Returned(-1), nodes0)
  {
    var st0 := Start(nodes0);
    RunSkips(v, st0, cs, [l], env);
    RunCons(v, st0, l, [], env);
    var st := Step(v, st0, l, env);
    assert st.status == Rejected && st.nodes == nodes0;
    RejectedStops(v, st, [], env);
    assert Lines(v, data) == (cs + [l]) + rest;
    RejectedRead(v, data, env, nodes0, cs + [l], st, rest);
  }

  /** The reader after `[GIPS]` and skipped lines, before anything else. */
  lemma GipsOpenRun(v: Reading, nodes0: seq<NodeImage>, cs1: seq<string>, cs2: seq<string>, env: Env)
    requires forall i :: 0 <= i < |cs1| ==> Skipped(cs1[i])
    requires forall i :: 0 <= i < |cs2| ==> Skipped(cs2[i])
    ensures Run(v, Start(nodes0), cs1 + ["[GIPS]"] + cs2, env) == Start(nodes0).(waiting := false)
  {
    var st0 := Start(nodes0);
    var st1 := st0.(waiting := false);
    RunSkips(v, st0, cs1, ["[GIPS]"] + cs2, env);
    assert cs1 + ["[GIPS]"] + cs2 == cs1 + (["[GIPS]"] + cs2);
    GipsStep(v, st0, env);
    RunCons(v, st0, "[GIPS]", cs2, env);
    RunSkips(v, st1, cs2, [], env);
    assert cs2 + [] == cs2;
  }

  /** A line of the `[GIPS]` section that the reader rejects ends the read with -1, the pipeline untouched. */
  lemma GipsLineRejected(v: Reading, data: string, env: Env, nodes0: seq<NodeImage>,
                         cs1: seq<string>, cs2: seq<string>, line: string, rest: seq<string>)
    requires Lines(v, data) == cs1 + ["[GIPS]"] + cs2 + [line] + rest
    requires forall i :: 0 <= i < |cs1| ==> Skipped(cs1[i])
    requires forall i :: 0 <= i < |cs2| ==> Skipped(cs2[i])
    requires var st := Step(v, Start(nodes0).(waiting := false), line, env);
      st.status == Rejected && st.nodes == nodes0
    ensures ReadSpec(v, data, env, nodes0) == ReadResult(Returned(-1), nodes0)
  {
    var pre := cs1 + ["[GIPS]"] + cs2;
    var st1 := Start(nodes0).(waiting := false);
    GipsOpenRun(v, nodes0, cs1, cs2, env);
    var st := Step(v, st1, line, env);
    RunAppend(v, Start(nodes0), pre, [line], env);
    RunCons(v, st1, line, [], env);
    assert Lines(v, data) == (pre + [line]) + rest;
    RejectedRead(v, data, env, nodes0, pre + [line], st, rest);
  }

  /** A node section before `version = 1` is rejected: -1, the pipeline untouched. */
  lemma NodeBeforeVersionRejected(v: Reading, data: string, env: Env, nodes0: seq<NodeImage>,
                                  cs1: seq<string>, cs2: seq<string>, name: string, rest: seq<string>)
    requires Lines(v, data) == cs1 + ["[GIPS]"] + cs2 + ["[" + name + "]"] + rest
    requires forall i :: 0 <= i < |cs1| ==> Skipped(cs1[i])
    requires forall i :: 0 <= i < |cs2| ==> Skipped(cs2[i])
    ensures ReadSpec(v, data, env, nodes0) == ReadResult(Returned(-1), nodes0)
  {
    var hdr := "[" + name + "]";
    assert hdr[0] == '[' && hdr[|hdr| - 1] == ']';
    GipsLineRejected(v, data, env, nodes0, cs1, cs2, hdr, rest);
  }

  /** `version = x` before the first node: the version check, and nothing else. */
  lemma ApplyVersion(v: Reading, st: Reader, x: real)
    requires Coherent(st) && !st.node
    ensures Apply(v, st, "version", [x]) ==
      if VersionMatches(x) then st.(versionOK := true) else st.(versionOK := false, status := Rejected)
  {
    FillHead([x], Zero4);
    assert "version" != ".show" by { assert "version"[0] != ".show"[0]; }
  }

  lemma WrongVersionStep(v: Reading, st: Reader, text: string, x: real, env: Env)
    requires Coherent(st) && st.status == Running && !st.waiting && !st.node
    requires text != [] && text[0] != '#' && !IsSpace(text[0]) && !IsSpace(text[|text| - 1])
    requires env.io.scan(text) == (x, |text|) && !VersionMatches(x)
    ensures Step(v, st, "version = " + text, env) == st.(versionOK := false, status := Rejected)
  {
    assert "version = " + text == "version" + " = " + text;
    AssignStep(v, st, "version", text, x, env);
    ApplyVersion(v, st, x);
  }

  /** A version other than 1 (within 1e-6) is rejected: -1, the pipeline untouched. */
  lemma WrongVersionRejected(v: Reading, data: string, env: Env, nodes0: seq<NodeImage>,
                             cs1: seq<string>, cs2: seq<string>, text: string, x: real, rest: seq<string>)
    requires Lines(v, data) == cs1 + ["[GIPS]"] + cs2 + ["version = " + text] + rest
    requires forall i :: 0 <= i < |cs1| ==> Skipped(cs1[i])
    requires forall i :: 0 <= i < |cs2| ==> Skipped(cs2[i])
    requires text != [] && text[0] != '#' && !IsSpace(text[0]) && !IsSpace(text[|text| - 1])
    requires env.io.scan(text) == (x, |text|) && !VersionMatches(x)
    ensures ReadSpec(v, data, env, nodes0) == ReadResult(Returned(-1), nodes0)
  {
    WrongVersionStep(v, Start(nodes0).(waiting := false), text, x, env);
    GipsLineRejected(v, data, env, nodes0, cs1, cs2, "version = " + text, rest);
  }

  /** A line without '=' or with an empty value in the `[GIPS]` section is rejected: -1, the pipeline untouched. */
  lemma GipsSyntaxErrorRejected(v: Reading, data: string, env: Env, nodes0: seq<NodeImage>,
                                cs1: seq<string>, cs2: seq<string>, line: string, rest: seq<string>)
    requires Lines(v, data) == cs1 + ["[GIPS]"] + cs2 + [line] + rest
    requires forall i :: 0 <= i < |cs1| ==> Skipped(cs1[i])
    requires forall i :: 0 <= i < |cs2| ==> Skipped(cs2[i])
    requires !Skipped(line) && !IsHeader(line) && !KeyValueOf(v, line).KeyValue?
    ensures ReadSpec(v, data, env, nodes0) == ReadResult(Returned(-1), nodes0)
  {
    SyntaxErrorBeforeNode(v, Start(nodes0).(waiting := false), line, env);
    GipsLineRejected(v, data, env, nodes0, cs1, cs2, line, rest);
  }

  ///////////////////////////////////////////////////////////////////////////
  // where `unserialize` as written departs from what `serialize` writes

  lemma FirstLine(l: string, rest: string)
    requires '\n' !in l
    ensures IndexOf(l + "\n" + rest, '\n') == |l|
    ensures (l + "\n" + rest)[..|l|] == l
  {
    var data := l + "\n" + rest;
    assert forall j :: 0 <= j < |l| ==> data[j] == l[j];
    IndexOfAt(data, '\n', |l|);
  }

  /** As written, the loop stops at a line whose `end` is its line feed. */
  lemma LfStopsAt(data: string, q: nat)
    requires q < |data| && IndexOf(data, '\n') == q && LineEnd(data[..q]) == q
    ensures Lines(AsWritten, data) == [TrimLine(data[..q])]
  {
  }

  /** As written, a line ended by a bare LF right after its last visible character ends the file. */
  lemma LfStopsAsWritten(l: string, rest: string)
    requires l != [] && '\n' !in l && !IsBlank(l[0]) && !IsSpace(l[|l| - 1])
    ensures Lines(AsWritten, l + "\n" + rest) == [TrimLine(l)]
  {
    FirstLine(l, rest);
    LineEndAt(l, |l|, 0, |l|);
    assert l[..|l|] == l;
    LfStopsAt(l + "\n" + rest, |l|);
  }

  /**
   * A pipeline file saved with LF line ends reads, as written, as `[GIPS]`
   * alone: the pipeline keeps its old nodes and its node count is returned.
   */
  lemma LfFileIgnoredAsWritten(showIndex: int, ns: seq<NodeImage>, env: Env, nodes0: seq<NodeImage>)
    ensures ReadSpec(AsWritten, Join(SerializeLines(showIndex, ns, env.io), "\n"), env, nodes0)
         == ReadResult(Returned(|nodes0|), nodes0)
  {
    var ls := SerializeLines(showIndex, ns, env.io);
    assert ls[0] == "[GIPS]";
    var data := Join(ls, "\n");
    assert data == "[GIPS]" + "\n" + Join(ls[1..], "\n");
    LfStopsAsWritten("[GIPS]", Join(ls[1..], "\n"));
    GipsStep(AsWritten, Start(nodes0), env);
    RunCons(AsWritten, Start(nodes0), "[GIPS]", [], env);
  }

  /** As written, `key=value` without a blank before the separator is a syntax error. */
  lemma KeyWithoutGapAsWritten(key: string, gap: string, value: string)
    requires key != [] && '=' !in key && !IsSpace(key[|key| - 1])
    requires forall i :: 0 <= i < |gap| ==> IsSpace(gap[i])
    requires value != [] && !IsSpace(value[0])
    ensures KeyValueOf(AsWritten, key + "=" + gap + value) == Malformed(key)
    ensures KeyValueOf(Corrected, key + "=" + gap + value) == KeyValue(key, value)
  {
    assert key + [] == key;
    KeySplit(AsWritten, key, [], gap, value);
    KeySplit(Corrected, key, [], gap, value);
  }

  /** A key followed by `=` and nothing else. */
  lemma EmptyValueSplit(v: Reading, key: string, gap1: string, gap2: string)
    requires key != [] && '=' !in key && !IsSpace(key[|key| - 1])
    requires forall i :: 0 <= i < |gap1| ==> IsSpace(gap1[i])
    requires forall i :: 0 <= i < |gap2| ==> IsSpace(gap2[i])
    ensures KeyValueOf(v, key + gap1 + "=" + gap2)
         == if v == AsWritten && gap1 == [] then Malformed(key)
            else NoValue(if v == AsWritten then [] else key)
  {
    var line := key + gap1 + "=" + gap2;
    var k := |key| + |gap1|;
    assert forall j :: 0 <= j < k ==> line[j] != '=' by {
      forall j | 0 <= j < k ensures line[j] != '=' {
        if j < |key| {
          assert line[j] == key[j];
        } else {
          assert line[j] == gap1[j - |key|];
        }
      }
    }
    IndexOfAt(line, '=', k);
    assert line[..k] == key + gap1;
    LastNonSpaceUnique(key + gap1, |key| - 1);
    assert line[..|key|] == key;
    var after := line[k + 1..];
    assert after == gap2;
    FirstNonSpaceAt(after, |gap2|);
  }

  /** As written, the empty-value diagnostic quotes the empty value instead of the key. */
  lemma EmptyValueQuotesNothing(key: string, gap: string)
    requires key != [] && '=' !in key && !IsSpace(key[|key| - 1])
    requires forall i :: 0 <= i < |gap| ==> IsSpace(gap[i])
    ensures KeyValueOf(AsWritten, key + " " + "=" + gap) == NoValue([])
  {
    EmptyValueSplit(AsWritten, key, " ", gap);
  }

  /** Corrected, it names the key the value is missing for. */
  lemma EmptyValueNamesKey(key: string, gap1: string, gap2: string)
    requires key != [] && '=' !in key && !IsSpace(key[|key| - 1])
    requires forall i :: 0 <= i < |gap1| ==> IsSpace(gap1[i])
    requires forall i :: 0 <= i < |gap2| ==> IsSpace(gap2[i])
    ensures KeyValueOf(Corrected, key + gap1 + "=" + gap2) == NoValue(key)
  {
    EmptyValueSplit(Corrected, key, gap1, gap2);
  }

  /** A colour assignment whose value is not a colour. */
  lemma BadColorLine(v: Reading, io: TextCodec)
    ensures TrimLine("gain = #zz") == "gain = #zz"
    ensures KeyValueOf(v, "gain = #zz") == KeyValue("gain", "#zz")
    ensures ValueOf(io, "#zz") == BadColor
  {
    BadColorKey();
    assert "gain = #zz" == "gain" + " = " + "#zz";
    PseudoKeyLine(v, "gain", "#zz");
    BadColorValue(io);
  }

  lemma BadColorKey()
    ensures '=' !in "gain" && !IsSpace("gain"[0]) && !IsSpace("gain"[3])
    ensures !IsSpace("#zz"[0]) && !IsSpace("#zz"[2])
  {
  }

  lemma BadColorValue(io: TextCodec)
    ensures ValueOf(io, "#zz") == BadColor
  {
    assert "#zz"[0] == '#' && "#zz"[1..] == "zz";
    assert HexColor("zz") == None;
  }

  lemma BadColorStep(v: Reading, st: Reader, env: Env)
    requires Coherent(st) && st.status == Running && !st.waiting && !st.node
    ensures Step(v, st, "gain = #zz", env) == st.(status := if v == AsWritten then Crashed else Rejected)
  {
    var line := "gain = #zz";
    BadColorLine(v, env.io);
    assert line[0] == 'g';
    StepAssigns(v, st, line, env);
    AssignmentBadColor(v, st, line, "gain", "#zz", env);
  }

  /** A value that is no hex colour is a fault of the line. */
  lemma AssignmentBadColor(v: Reading, st: Reader, line: string, key: string, value: string, env: Env)
    requires Coherent(st)
    requires KeyValueOf(v, line) == KeyValue(key, value) && ValueOf(env.io, value) == BadColor
    ensures Assignment(v, st, line, env) == Fault(v, st, InvalidColor(value, key))
  {
  }

  lemma TrimsPair(a: string, b: string)
    ensures Trims([a, b]) == [TrimLine(a), TrimLine(b)]
  {
  }

  lemma BadColorFileLines()
    ensures NoLineFeeds(["[GIPS]", "gain = #zz"])
  {
    assert '\n' !in "[GIPS]";
    assert '\n' !in "gain = #zz";
  }

  lemma BadColorLines(v: Reading, io: TextCodec)
    ensures Lines(v, Join(["[GIPS]", "gain = #zz"], CRLF)) == ["[GIPS]", "gain = #zz"]
  {
    BadColorFileLines();
    JoinLines(v, ["[GIPS]", "gain = #zz"], CRLF);
    TrimsPair("[GIPS]", "gain = #zz");
    BadColorLine(v, io);
    TrimExact("[GIPS]");
  }

  lemma BadColorRun(v: Reading, env: Env, nodes0: seq<NodeImage>)
    ensures Run(v, Start(nodes0), ["[GIPS]", "gain = #zz"], env)
         == Start(nodes0).(waiting := false, status := if v == AsWritten then Crashed else Rejected)
  {
    var st := Start(nodes0).(waiting := false);
    GipsStep(v, Start(nodes0), env);
    assert ["[GIPS]", "gain = #zz"] == ["[GIPS]"] + ["gain = #zz"];
    RunCons(v, Start(nodes0), "[GIPS]", ["gain = #zz"], env);
    BadColorStep(v, st, env);
    RunCons(v, st, "gain = #zz", [], env);
  }

  /**
   * An invalid colour in the `[GIPS]` section is reported through the
   * null `node`: as written that is a crash; corrected, the file is rejected.
   */
  lemma CrashBeforeSectionAsWritten(env: Env, nodes0: seq<NodeImage>)
    ensures ReadSpec(AsWritten, Join(["[GIPS]", "gain = #zz"], CRLF), env, nodes0).outcome == Crash
    ensures ReadSpec(Corrected, Join(["[GIPS]", "gain = #zz"], CRLF), env, nodes0) == ReadResult(Returned(-1), nodes0)
  {
    BadColorLines(AsWritten, env.io);
    BadColorLines(Corrected, env.io);
    BadColorRun(AsWritten, env, nodes0);
    BadColorRun(Corrected, env, nodes0);
  }

  /** Reporting on the last node leaves the reader's status alone. */
  lemma ReportStatus(st: Reader, d: Diagnostic)
    requires st.node && Coherent(st)
    ensures Report(st, d).status == st.status
  {
  }

  lemma ApplyStatus(v: Reading, st: Reader, key: string, xs: seq<real>)
    requires Coherent(st) && 1 <= |xs| <= 4
    ensures Apply(v, st, key, xs).status in {st.status, Rejected}
  {
    if st.node {
      var p := FirstNamed(Last(st).params, key);
      if p.None? {
        ReportStatus(st, UnknownParameter(key));
      }
    }
  }

  lemma AssignmentStatus(st: Reader, line: string, env: Env)
    requires Coherent(st) && st.status != Crashed
    ensures Assignment(Corrected, st, line, env).status != Crashed
  {
    match KeyValueOf(Corrected, line)
    case Malformed(key) =>
      if st.node { ReportStatus(st, SyntaxError(key)); }
    case NoValue(quoted) =>
      if st.node { ReportStatus(st, EmptyValue(quoted)); }
    case KeyValue(key, value) =>
      match ValueOf(env.io, value)
      case BadColor =>
        if st.node { ReportStatus(st, InvalidColor(value, key)); }
      case BadNumber(at) =>
        if st.node { ReportStatus(st, InvalidValue(at, key)); }
      case Components(xs, tooMany) =>
        if tooMany && st.node { ReportStatus(st, TooManyValues(key)); }
        var st1 := if tooMany then Fault(Corrected, st, TooManyValues(key)) else st;
        if st1.status == Running {
          ApplyStatus(Corrected, st1, key, xs);
        }
  }

  /** Corrected, no step of the reader dereferences a missing node. */
  lemma StepNeverCrashes(st: Reader, line: string, env: Env)
    requires Coherent(st) && st.status != Crashed
    ensures Step(Corrected, st, line, env).status != Crashed
  {
    if !(line == [] || line[0] == ';' || line[0] == '#') && !IsHeader(line) && !st.waiting {
      AssignmentStatus(st, line, env);
    }
  }

  lemma {:induction false} CorrectedNeverCrashes(st: Reader, lines: seq<string>, env: Env)
    requires Coherent(st) && st.status != Crashed
    ensures Run(Corrected, st, lines, env).status != Crashed
    decreases |lines|
  {
    if lines != [] && st.status == Running {
      StepNeverCrashes(st, lines[0], env);
      CorrectedNeverCrashes(Step(Corrected, st, lines[0], env), lines[1..], env);
    }
  }

  /** Corrected, `unserialize` never crashes, whatever the file holds. */
  lemma ReadNeverCrashes(data: string, env: Env, nodes0: seq<NodeImage>)
    ensures ReadSpec(Corrected, data, env, nodes0).outcome != Crash
  {
    if data != [] {
      CorrectedNeverCrashes(Start(nodes0), Lines(Corrected, data), env);
    }
  }

  /** As written, a show index of 0 (the input image) reads back as the old pipeline's node count. */
  lemma ShowZeroAsWritten(ns: seq<NodeImage>, env: Env, nodes0: seq<NodeImage>)
    requires |ns| >= 1 && Cooperative(env) && LineFeedFree(env.io) && ReadableNodes(ns)
    ensures ReadSpec(AsWritten, Join(SerializeLines(0, ns, env.io), CRLF), env, nodes0).outcome
         == Returned(|nodes0|)
  {
    RoundTrip(AsWritten, 0, ns, env, nodes0, CRLF);
  }

  /** Corrected, every show index from 0 to the node count reads back as itself, with either line end. */
  lemma ShowRoundTrip(showIndex: int, ns: seq<NodeImage>, env: Env, nodes0: seq<NodeImage>, eol: string)
    requires eol == CRLF || eol == "\n"
    requires 0 <= showIndex <= |ns|
    requires |ns| >= 1 && Cooperative(env) && LineFeedFree(env.io) && ReadableNodes(ns)
    ensures ReadSpec(Corrected, Join(SerializeLines(showIndex, ns, env.io), eol), env, nodes0).outcome
         == Returned(showIndex)
  {
    RoundTrip(Corrected, showIndex, ns, env, nodes0, eol);
  }
}
