/**
 * The filter-shader loader `Node::load` (src/gips_shader_loader.cpp):
 * the token scan with its four-deep history of token classes, the
 * `@key[=value]` annotations in comments, the finalisation of the
 * parameters, the pass bitmask and the generated `main()` wrapper.
 *
 * The tokenizer, `strtof`, the automatic digit count (which uses `log10`)
 * and the GLSL compiler and linker are not part of this model; they are
 * the fields of a `Toolchain` value that every operation receives.
 */
module ShaderLoader {
  import opened StringUtil
  import opened GipsTypes

  /** `MaxSupportedVersionCode` */
  const MaxSupportedVersion: real := 1.0

  /** `GLSLToken`: the token classes the scan distinguishes. */
  datatype GlslToken =
    | Other | Ignored | Uniform | Float | Vec2 | Vec3 | Vec4
    | RunSingle | RunPass1 | RunPass2 | RunPass3 | RunPass4
    | OpenParens | CloseParens

  /** `tokenMap`, terminated by the null-pattern row that maps everything else to `Other`. */
  const TokenMap: seq<LookupEntry<GlslToken>> := [
    LookupEntry(Some("in"), Ignored),
    LookupEntry(Some("uniform"), Uniform),
    LookupEntry(Some("float"), Float),
    LookupEntry(Some("vec2"), Vec2),
    LookupEntry(Some("vec3"), Vec3),
    LookupEntry(Some("vec4"), Vec4),
    LookupEntry(Some("run"), RunSingle),
    LookupEntry(Some("run_pass1"), RunPass1),
    LookupEntry(Some("run_pass2"), RunPass2),
    LookupEntry(Some("run_pass3"), RunPass3),
    LookupEntry(Some("run_pass4"), RunPass4),
    LookupEntry(Some("("), OpenParens),
    LookupEntry(Some(")"), CloseParens),
    LookupEntry(Some("){"), CloseParens),
    LookupEntry(None, Other)
  ]

  /** The class of a code token: `lookup(tokenMap, token)`. */
  function Classify(text: string): GlslToken {
    assert TokenMap[14].pattern.None?;
    Lookup(Some(TokenMap), Some(text), Other)
  }

  /** A token outside the table is `Other`; "in" is the one token the scan drops. */
  lemma ClassifyUnlisted(text: string)
    requires forall k :: 0 <= k < 14 ==> TokenMap[k].pattern != Some(text)
    ensures Classify(text) == Other
  {
  }

  lemma ClassifyListed(k: nat)
    requires k < 14
    ensures Classify(TokenMap[k].pattern.value) == TokenMap[k].value
  {
    assert TokenMap[14].pattern.None?;
    LookupFindsListed(TokenMap, TokenMap[k].pattern.value, k, Other);
  }

  ///////////////////////////////////////////////////////////////////////////
  // Comment annotations

  /** One `@key` or `@key=value` annotation, lower-cased. */
  datatype Annotation = Annotation(key: string, value: Option<string>)

  /** Length of the longest prefix of identifier characters (`isident`). */
  function IdentLen(s: string): (n: nat)
    ensures n <= |s|
  {
    if s == [] || !IsIdent(s[0]) then 0 else IdentLen(s[1..]) + 1
  }

  /** The prefix `IdentLen` measures is made of identifier characters, and the character after it is not one. */
  lemma {:induction false} IdentLenShape(s: string)
    ensures forall j :: 0 <= j < IdentLen(s) ==> IsIdent(s[j])
    ensures IdentLen(s) < |s| ==> !IsIdent(s[IdentLen(s)])
  {
    if s != [] && IsIdent(s[0]) {
      IdentLenShape(s[1..]);
      forall j | 0 <= j < IdentLen(s)
        ensures IsIdent(s[j])
      {
        if j > 0 {
          assert s[j] == s[1..][j - 1];
        }
      }
    }
  }

  /**
   * Reference definition of the annotation scan of one comment: the
   * annotations found and the text left once they are deleted.
   * `afterAlnum` tells whether the character before `s` is alphanumeric;
   * an '@' there is part of a word and is kept. A token is deleted together
   * with the one character that terminates it.
   */
  function Annotations(s: string, afterAlnum: bool): (r: (seq<Annotation>, string))
    ensures |r.1| <= |s|
    decreases |s|
  {
    if s == [] then ([], [])
    else if s[0] != '@' || afterAlnum then
      var r := Annotations(s[1..], IsAlnum(s[0]));
      (r.0, [s[0]] + r.1)
    else
      var r := Annotations(s[1..][TokenCut(s[1..])..], afterAlnum);
      ([TokenAnnotation(s[1..])] + r.0, r.1)
  }

  /** Whether the key at the start of `t` (the text after an '@') is followed by '=' and a value. */
  predicate HasValue(t: string) {
    IdentLen(t) < |t| && t[IdentLen(t)] == '='
  }

  /** The end of the key, or of the value when there is one. */
  function TokenEnd(t: string): (e: nat)
    ensures IdentLen(t) <= e <= |t|
  {
    var k := IdentLen(t);
    if HasValue(t) then k + 1 + IdentLen(t[k + 1..]) else k
  }

  /** How much of `t` the token takes: its end plus the one character that terminates it. */
  function TokenCut(t: string): (c: nat)
    ensures c <= |t|
  {
    var e := TokenEnd(t);
    if e < |t| then e + 1 else e
  }

  /** The lower-cased key and value at the start of `t`. */
  function TokenAnnotation(t: string): Annotation {
    var k := IdentLen(t);
    Annotation(LowerString(t[..k]), if HasValue(t) then Some(LowerString(t[k + 1..TokenEnd(t)])) else None)
  }

  lemma {:induction false} IdentLenUnique(s: string, n: nat)
    requires n <= |s|
    requires forall j :: 0 <= j < n ==> IsIdent(s[j])
    requires n < |s| ==> !IsIdent(s[n])
    ensures IdentLen(s) == n
  {
    if n > 0 {
      IdentLenUnique(s[1..], n - 1);
    }
  }

  /** Whether the character before position `p` of `buf` is alphanumeric. */
  predicate AfterAlnum(buf: string, p: nat)
    requires p <= |buf|
  {
    p > 0 && IsAlnum(buf[p - 1])
  }

  /** A character that does not start a token is kept, and becomes the previous character. */
  lemma Unfold(content: string, anns: seq<Annotation>, buf: string, p: nat)
    requires p < |buf|
    requires buf[p] != '@' || AfterAlnum(buf, p)
    requires ScanInv(content, anns, buf, p)
    ensures ScanInv(content, anns, buf, p + 1)
  {
    var A := AfterAlnum(buf, p);
    var r := Annotations(buf[p + 1..], AfterAlnum(buf, p + 1));
    assert Annotations(buf[p..], A) == (r.0, [buf[p]] + r.1) by {
      assert buf[p..][1..] == buf[p + 1..];
      AnnotationsKeep(buf[p..], A);
    }
    assert buf[..p] + ([buf[p]] + r.1) == buf[..p + 1] + r.1 by {
      assert buf[..p + 1] == buf[..p] + [buf[p]];
    }
  }

  /** One unfolding of `Annotations` at a character that is kept. */
  lemma AnnotationsKeep(s: string, afterAlnum: bool)
    requires s != [] && (s[0] != '@' || afterAlnum)
    ensures var r := Annotations(s[1..], IsAlnum(s[0]));
      Annotations(s, afterAlnum) == (r.0, [s[0]] + r.1)
  {
  }

  /** One unfolding of `Annotations` at an '@' that starts a token. */
  lemma AnnotationsToken(s: string, afterAlnum: bool, t: string, rest: string)
    requires s != [] && s[0] == '@' && !afterAlnum
    requires t == s[1..] && rest == t[TokenCut(t)..]
    ensures var r := Annotations(rest, afterAlnum);
      Annotations(s, afterAlnum) == ([TokenAnnotation(t)] + r.0, r.1)
  {
  }

  /** Deleting a recognised token from the buffer keeps the scan's result. */
  lemma DeleteToken(content: string, anns: seq<Annotation>, buf: string, p: nat, a: Annotation, e: nat)
    requires ScanInv(content, anns, buf, p)
    requires p < |buf| && buf[p] == '@' && !AfterAlnum(buf, p)
    requires a == TokenAnnotation(buf[p + 1..]) && e == p + 1 + TokenCut(buf[p + 1..])
    ensures ScanInv(content, anns + [a], buf[..p] + buf[e..], p)
  {
    var A := AfterAlnum(buf, p);
    var r := Annotations(buf[e..], A);
    assert Annotations(buf[p..], A) == ([a] + r.0, r.1) by {
      var t := buf[p + 1..];
      assert buf[p..][1..] == t;
      assert t[e - (p + 1)..] == buf[e..];
      AnnotationsToken(buf[p..], A, t, buf[e..]);
    }
    var nb := buf[..p] + buf[e..];
    assert nb[..p] == buf[..p] && nb[p..] == buf[e..];
    assert AfterAlnum(nb, p) == A;
    assert anns + ([a] + r.0) == (anns + [a]) + r.0;
  }

  /** A key followed by '=' and a value: where the value ends. */
  lemma TokenWithValue(buf: string, p: nat, q: nat, eVal: nat)
    requires p < q <= |buf| && q - (p + 1) == IdentLen(buf[p + 1..])
    requires q < |buf| && buf[q] == '='
    requires q < eVal <= |buf| && eVal - (q + 1) == IdentLen(buf[q + 1..])
    ensures HasValue(buf[p + 1..])
    ensures TokenEnd(buf[p + 1..]) == eVal - (p + 1)
  {
    var t := buf[p + 1..];
    assert t[q - p..] == buf[q + 1..];
  }

  /** A key not followed by '=': the token ends with the key. */
  lemma TokenWithoutValue(buf: string, p: nat, q: nat)
    requires p < q <= |buf| && q - (p + 1) == IdentLen(buf[p + 1..])
    requires !(q < |buf| && buf[q] == '=')
    ensures !HasValue(buf[p + 1..])
    ensures TokenEnd(buf[p + 1..]) == q - (p + 1)
  {
  }

  /** A slice of a suffix is a slice of the whole. */
  lemma SubSlice(s: string, a: nat, i: nat, j: nat)
    requires a <= |s| && i <= j <= |s| - a
    ensures s[a..][i..j] == s[a + i..a + j]
  {
  }

  /** The key and value read by the loops are those of the reference definition. */
  lemma TokenParts(buf: string, p: nat, q: nat, eVal: nat, e: nat, key: string, value: Option<string>)
    requires p < q <= |buf| && q - (p + 1) == IdentLen(buf[p + 1..]) && key == LowerString(buf[p + 1..q])
    requires value.Some? <==> q < |buf| && buf[q] == '='
    requires value.None? ==> eVal == q
    requires value.Some? ==> (q < eVal <= |buf| && eVal - (q + 1) == IdentLen(buf[q + 1..])
      && value.value == LowerString(buf[q + 1..eVal]))
    requires e == if eVal < |buf| then eVal + 1 else eVal
    ensures Annotation(key, value) == TokenAnnotation(buf[p + 1..])
    ensures e == p + 1 + TokenCut(buf[p + 1..])
  {
    var t := buf[p + 1..];
    SubSlice(buf, p + 1, 0, q - (p + 1));
    assert t[..q - (p + 1)] == t[0..q - (p + 1)];
    if value.Some? {
      TokenWithValue(buf, p, q, eVal);
      SubSlice(buf, p + 1, q - p, eVal - (p + 1));
    } else {
      TokenWithoutValue(buf, p, q);
    }
  }

  /**
   * What the scan of `content` yields: the annotations found so far, then
   * whatever the rest of the buffer from `p` on yields.
   */
  ghost predicate ScanInv(content: string, anns: seq<Annotation>, buf: string, p: nat) {
    p <= |buf| && Annotations(content, false) == Pending(anns, buf, p)
  }

  ghost function Pending(anns: seq<Annotation>, buf: string, p: nat): (seq<Annotation>, string)
    requires p <= |buf|
  {
    var r := Annotations(buf[p..], AfterAlnum(buf, p));
    (anns + r.0, buf[..p] + r.1)
  }

  /** Reads the identifier characters from `from` on, lower-casing them (`tolower` in place). */
  method ReadIdent(buf: string, from: nat) returns (end: nat, lowered: string)
    requires from <= |buf|
    ensures from <= end <= |buf| && end - from == IdentLen(buf[from..])
    ensures lowered == LowerString(buf[from..end])
  {
    end := from;
    lowered := [];
    while end < |buf| && IsIdent(buf[end])
      invariant from <= end <= |buf|
      invariant forall j :: from <= j < end ==> IsIdent(buf[j])
      invariant lowered == LowerString(buf[from..end])
    {
      lowered := lowered + [ToLower(buf[end])];
      end := end + 1;
    }
    IdentLenUnique(buf[from..], end - from);
  }

  lemma ScanStart(content: string)
    ensures ScanInv(content, [], content, 0)
  {
    assert content[0..] == content && content[..0] == [];
    assert [] + Annotations(content, false).0 == Annotations(content, false).0;
    assert [] + Annotations(content, false).1 == Annotations(content, false).1;
  }

  lemma ScanDone(content: string, anns: seq<Annotation>, buf: string)
    requires ScanInv(content, anns, buf, |buf|)
    ensures Annotations(content, false) == (anns, buf)
  {
    assert buf[|buf|..] == [] && buf[..|buf|] == buf;
    assert anns + [] == anns && buf + [] == buf;
  }

  /** `strchr(pos, '@')`: the next '@' at or after `pos`, or the end. */
  method FindAt(ghost content: string, ghost anns: seq<Annotation>, buf: string, pos: nat) returns (p: nat)
    requires pos <= |buf| && ScanInv(content, anns, buf, pos)
    ensures pos <= p <= |buf| && ScanInv(content, anns, buf, p)
    ensures p < |buf| ==> buf[p] == '@'
  {
    p := pos;
    while p < |buf| && buf[p] != '@'
      invariant pos <= p <= |buf|
      invariant forall j :: pos <= j < p ==> buf[j] != '@'
    {
      p := p + 1;
    }
    SkipPlain(content, anns, buf, pos, p);
  }

  /** Characters other than '@' are all kept, one by one. */
  lemma {:induction false} SkipPlain(content: string, anns: seq<Annotation>, buf: string, pos: nat, p: nat)
    requires pos <= p <= |buf| && ScanInv(content, anns, buf, pos)
    requires forall j :: pos <= j < p ==> buf[j] != '@'
    ensures ScanInv(content, anns, buf, p)
    decreases p - pos
  {
    if pos < p {
      Unfold(content, anns, buf, pos);
      SkipPlain(content, anns, buf, pos + 1, p);
    }
  }

  /**
   * One token of the comment loop: reads the lower-cased key and value after
   * the '@' at `p` and deletes the token, with the character that ends it,
   * from the buffer (`memmove`).
   */
  method TakeToken(ghost content: string, ghost anns: seq<Annotation>, buf: string, p: nat) returns (a: Annotation, buf': string)
    requires ScanInv(content, anns, buf, p)
    requires p < |buf| && buf[p] == '@' && !AfterAlnum(buf, p)
    ensures ScanInv(content, anns + [a], buf', p) && |buf'| < |buf|
    ensures a == TokenAnnotation(buf[p + 1..])
  {
    var q, key := ReadIdent(buf, p + 1);
    var value := None;
    var e := q;
    if q < |buf| && buf[q] == '=' {
      var v;
      e, v := ReadIdent(buf, q + 1);
      value := Some(v);
    }
    // the character that ends the token goes too
    ghost var eVal := e;
    if e < |buf| { e := e + 1; }
    a := Annotation(key, value);
    TokenParts(buf, p, q, eVal, e, key, value);
    DeleteToken(content, anns, buf, p, a, e);
    buf' := buf[..p] + buf[e..];
  }

  /**
   * The comment loop of `Node::load`: finds each '@' that does not follow an
   * alphanumeric character, reads the lower-cased key and value and deletes
   * the token from the buffer (`memmove`).
   */
  method ExtractAnnotations(content: string) returns (anns: seq<Annotation>, rest: string)
    ensures (anns, rest) == Annotations(content, false)
  {
    var buf := content;
    var pos := 0;
    anns := [];
    ScanStart(content);
    while true
      invariant 0 <= pos <= |buf|
      invariant ScanInv(content, anns, buf, pos)
      decreases |buf|, |buf| - pos
    {
      var p := FindAt(content, anns, buf, pos);
      if p == |buf| {
        ScanDone(content, anns, buf);
        rest := buf;
        return;
      }
      if AfterAlnum(buf, p) {
        Unfold(content, anns, buf, p);
        pos := p + 1;
        continue;
      }
      var ann;
      ann, buf := TakeToken(content, anns, buf, p);
      anns := anns + [ann];
      pos := p;
    }
  }

  ///////////////////////////////////////////////////////////////////////////
  // The outside world the loader depends on

  /**
   * What `Node::load` calls but this model does not define: reading the
   * file, the tokenizer, `strtof` on a whole token, the automatic digit
   * count, the base name without extension, and whether the GLSL compiler
   * and linker accept the fragment shader `ShaderText(g)` generated for `g`
   * (together with the fixed vertex shader).
   */
  datatype Toolchain = Toolchain(
    read: string -> Option<string>,
    tokenize: string -> seq<SourceToken>,
    parseFloat: string -> Option<real>,
    autoDigits: (real, real) -> nat,
    stem: string -> string,
    builds: GeneratedShader -> bool)

  /** A token as the tokenizer delivers it: code, or the body of a line or block comment. */
  datatype SourceToken = Code(text: string) | Comment(body: string)

  /**
   * `strtof(s, &end)` with `end` at the terminator: the empty string counts
   * as the number 0, because nothing is consumed and `*end` is the terminator.
   */
  function NumberOf(tc: Toolchain, s: string): Option<real> {
    if s == [] then Some(0.0) else tc.parseFloat(s)
  }

  /** C's `int(x)`: truncation toward zero. */
  function Trunc(x: real): (n: int)
    ensures x >= 0.0 ==> 0.0 <= n as real <= x < n as real + 1.0
    ensures x < 0.0 ==> n as real - 1.0 < x <= n as real <= 0.0
  {
    if x >= 0.0 then x.Floor else -((-x).Floor)
  }

  ///////////////////////////////////////////////////////////////////////////
  // Scan state

  datatype PassInput = InCoord | InRGB | InRGBA
  datatype PassOutput = OutRGB | OutRGBA

  /**
   * The local variables of `Node::load` during the token scan, plus the
   * node's `m_passes` settings, which the scan writes directly.
   * `param` is the index in `params` that the C++ `param` pointer designates.
   */
  datatype Scan = Scan(
    params: seq<Parameter>,
    param: Option<nat>,
    paramDataType: GlslToken,
    valueIndex: int,
    inParamStatement: bool,
    passMask: set<nat>,
    singlePass: bool,
    inputs: seq<PassInput>,
    outputs: seq<PassOutput>,
    texFilter: bool,
    coordMode: CoordMapMode,
    passes: seq<PassData>,
    history: seq<GlslToken>,
    errors: seq<Diagnostic>,
    aborted: bool)

  ghost predicate ValidScan(st: Scan) {
    && |st.inputs| == MaxPasses && |st.outputs| == MaxPasses && |st.passes| == MaxPasses
    && |st.history| == 4
    && (st.param.Some? ==> st.param.value < |st.params|)
    && (forall k :: k in st.passMask ==> k < MaxPasses)
  }

  /** The state before the first token: empty history (`Other`), no parameter, no pass. */
  function InitialScan(passes: seq<PassData>): (st: Scan)
    requires |passes| == MaxPasses
    ensures ValidScan(st) && st.params == [] && st.passMask == {} && !st.aborted
  {
    Scan([], None, Other, -1, false, {}, false,
         [InCoord, InCoord, InCoord, InCoord], [OutRGBA, OutRGBA, OutRGBA, OutRGBA],
         true, MapPixel, passes, [Other, Other, Other, Other], [], false)
  }

  /** `b` holds the parameters of `a`, under the same names and in the same places, and perhaps more. */
  predicate KeepsNames(a: seq<Parameter>, b: seq<Parameter>) {
    |a| <= |b| && forall i :: 0 <= i < |a| ==> b[i].name == a[i].name
  }

  function Report(st: Scan, d: Diagnostic): Scan {
    st.(errors := st.errors + [d])
  }

  /** Replaces the parameter `param` designates. */
  function SetParam(st: Scan, p: Parameter): (r: Scan)
    requires ValidScan(st) && st.param.Some?
    ensures ValidScan(r)
    ensures p.name == st.params[st.param.value].name ==> |r.params| == |st.params| && KeepsNames(st.params, r.params)
  {
    st.(params := st.params[st.param.value := p])
  }

  /** What a parameter annotation does to the open parameter: replace it, or report a diagnostic. */
  datatype ParamEdit = Replace(p: Parameter) | Reject(d: Diagnostic)

  /** The `setParamType` helper: the format applies only to a uniform of data type `dt`. */
  function SetParamType(p: Parameter, dataType: GlslToken, key: string, dt: GlslToken, pt: ParameterType): (e: ParamEdit)
    ensures e.Replace? <==> dataType == dt
    ensures e.Replace? ==> e.p == p.(ptype := pt)
  {
    if dataType != dt then Reject(IncompatibleFormat(key, p.name)) else Replace(p.(ptype := pt))
  }

  predicate IsParamKey(key: string) {
    key in {"min", "off", "max", "on", "digits", "int", "unit", "toggle", "switch", "angle", "color"}
  }

  predicate IsGlobalKey(key: string) {
    key in {"coord", "coords", "map", "filter", "filt", "version", "gips_version"}
  }

  /** One annotation, evaluated by the `if ... else if` chain of the comment loop. */
  function EvalAnnotation(st: Scan, a: Annotation, tc: Toolchain): (r: Scan)
    requires ValidScan(st)
    ensures ValidScan(r)
    ensures |r.params| == |st.params| && KeepsNames(st.params, r.params)
  {
    var num := if a.value.Some? then NumberOf(tc, a.value.value) else None;
    if IsParamKey(a.key) then
      if st.param.None? then Report(st, NeedsParamScope(a.key)) else ParamAnnotation(st, a, num)
    else if IsGlobalKey(a.key) then
      if st.param.Some? then Report(st, NeedsGlobalScope(a.key)) else GlobalAnnotation(st, a, num)
    else Report(st, UnrecognizedAnnotation(a.key))
  }

  /** The branches of the chain for a parameter key, with a parameter open; `num` is the value as a number. */
  function ParamAnnotation(st: Scan, a: Annotation, num: Option<real>): (r: Scan)
    requires ValidScan(st) && st.param.Some? && IsParamKey(a.key)
    ensures ValidScan(r)
    ensures |r.params| == |st.params| && KeepsNames(st.params, r.params)
  {
    match EditParam(st.params[st.param.value], st.paramDataType, a, num)
    case Reject(d) => Report(st, d)
    case Replace(p) => SetParam(st, p)
  }

  /** The edit a parameter key makes to the open parameter `p`, a uniform of data type `dataType`. */
  function EditParam(p: Parameter, dataType: GlslToken, a: Annotation, num: Option<real>): (e: ParamEdit)
    ensures e.Replace? ==> e.p.name == p.name
  {
    var key := a.key;
    if key == "min" || key == "off" then
      if num.None? then Reject(NeedsNumber(key)) else Replace(p.(minValue := num.value))
    else if key == "max" || key == "on" then
      if num.None? then Reject(NeedsNumber(key)) else Replace(p.(maxValue := num.value))
    else if key == "digits" then
      if num.None? then Reject(NeedsNumber(key)) else Replace(p.(digits := Trunc(num.value + 0.5)))
    else if key == "int" then Replace(p.(digits := 0))
    else if key == "unit" then
      if a.value.None? then Reject(NeedsValue(key)) else Replace(p.(format := a.value.value))
    else if key == "toggle" || key == "switch" then SetParamType(p, dataType, key, Float, Toggle)
    else if key == "angle" then SetParamType(p, dataType, key, Float, Angle)
    else // "color": RGB for a vec3 without complaint, else RGBA for a vec4
      if dataType == Vec3 then Replace(p.(ptype := RGB))
      else SetParamType(p, dataType, key, Vec4, RGBA)
  }

  /** The branches of the chain for a global key, outside any parameter; `num` is the value as a number. */
  function GlobalAnnotation(st: Scan, a: Annotation, num: Option<real>): (r: Scan)
    requires ValidScan(st) && IsGlobalKey(a.key)
    ensures ValidScan(r) && r.params == st.params
  {
    var key := a.key;
    if key == "coord" || key == "coords" || key == "map" then
      if a.value.None? then Report(st, NeedsValue(key))
      else
        var v := a.value.value;
        if v == "pixel" then st.(coordMode := MapPixel)
        else if v == "none" then st.(coordMode := MapNone)
        else if v == "relative" || v == "rel" then st.(coordMode := MapRelative)
        else Report(st, UnknownCoordMode(v))
    else if key == "filter" || key == "filt" then
      if a.value.None? then Report(st, NeedsValue(key))
      else
        var v := a.value.value;
        if v in {"1", "on", "linear", "bilinear"} then st.(texFilter := true)
        else if v in {"0", "off", "nearest", "point"} then st.(texFilter := false)
        else Report(st, UnknownFilterMode(v))
    else // "version" or "gips_version"
      if num.None? then Report(st, NeedsNumber(key))
      else if num.value > MaxSupportedVersion then Report(st, VersionTooNew(num.value)).(aborted := true)
      else st
  }

  /** The annotations of one comment in order, stopping at the one that aborts the load. */
  function EvalAnnotations(st: Scan, anns: seq<Annotation>, tc: Toolchain): (r: Scan)
    requires ValidScan(st)
    ensures ValidScan(r)
    ensures |r.params| == |st.params| && KeepsNames(st.params, r.params)
    decreases |anns|
  {
    if anns == [] || st.aborted then st
    else EvalAnnotations(EvalAnnotation(st, anns[0], tc), anns[1..], tc)
  }

  /** The comment text the annotations are searched in: after the comment opener and a Doxygen '!'. */
  function CommentContent(body: string): string {
    if body != [] && body[0] == '!' then body[1..] else body
  }

  /**
   * A comment: its annotations are evaluated; if a parameter is open, the
   * trimmed remaining text becomes its description when non-empty; then the
   * parameter is forgotten.
   */
  function CommentStep(st: Scan, body: string, tc: Toolchain): (r: Scan)
    requires ValidScan(st)
    ensures ValidScan(r)
    ensures |r.params| == |st.params| && KeepsNames(st.params, r.params)
    ensures !r.aborted ==> r.param.None?
  {
    var ar := Annotations(CommentContent(body), false);
    var st1 := EvalAnnotations(st, ar.0, tc);
    if st1.aborted then st1
    else
      var d := Trimmed(ar.1);
      var st2 := if st1.param.Some? && d != [] then SetParam(st1, st1.params[st1.param.value].(desc := d)) else st1;
      st2.(param := None)
  }

  predicate IsDataType(t: GlslToken) {
    t == Float || t == Vec2 || t == Vec3 || t == Vec4
  }

  predicate IsRun(t: GlslToken) {
    t == RunSingle || t == RunPass1 || t == RunPass2 || t == RunPass3 || t == RunPass4
  }

  /** The default parameter type of a uniform's data type. */
  function TypeOfUniform(t: GlslToken): ParameterType
    requires IsDataType(t)
  {
    match t
    case Float => Value
    case Vec2 => Value2
    case Vec3 => Value3
    case Vec4 => Value4
  }

  /** The 0-based pass a `run` function defines. */
  function PassOf(t: GlslToken): (k: nat)
    requires IsRun(t)
    ensures k < MaxPasses
  {
    match t
    case RunSingle | RunPass1 => 0
    case RunPass2 => 1
    case RunPass3 => 2
    case RunPass4 => 3
  }

  /** `[3]="vec3/4", [2]="run[_passX]", [1]="(", [0]="vec2/3/4"` */
  predicate IsPassSignature(h: seq<GlslToken>)
    requires |h| == 4
  {
    (h[3] == Vec3 || h[3] == Vec4) && IsRun(h[2]) && h[1] == OpenParens
    && (h[0] == Vec2 || h[0] == Vec3 || h[0] == Vec4)
  }

  /** The effect of a recognised pass signature. */
  function ApplyPass(st: Scan): (r: Scan)
    requires ValidScan(st) && IsPassSignature(st.history)
    ensures ValidScan(r)
  {
    var h := st.history;
    var k := PassOf(h[2]);
    var single := if h[2] == RunSingle then true else if h[2] == RunPass1 then false else st.singlePass;
    var input := if h[0] == Vec2 then InCoord else if h[0] == Vec3 then InRGB else InRGBA;
    var output := if h[3] == Vec3 then OutRGB else OutRGBA;
    st.(passMask := st.passMask + {k}, singlePass := single,
        inputs := st.inputs[k := input], outputs := st.outputs[k := output],
        passes := st.passes[k := PassData(st.texFilter, st.coordMode)])
  }

  /** Inside a uniform's initialiser, a number fills the next of the four value slots. */
  function FillValue(st: Scan, text: string, tc: Toolchain): (r: Scan)
    requires ValidScan(st)
    ensures ValidScan(r) && r.history == st.history
    ensures |r.params| == |st.params| && KeepsNames(st.params, r.params)
  {
    if st.param.Some? && st.inParamStatement && 0 <= st.valueIndex < 4 && NumberOf(tc, text).Some? then
      var p := st.params[st.param.value];
      SetParam(st, p.(value := p.value[st.valueIndex := NumberOf(tc, text).value])).(valueIndex := st.valueIndex + 1)
    else st
  }

  /** A code token, after its class has entered the history. */
  function AfterHistory(st: Scan, text: string, tc: Toolchain): (r: Scan)
    requires ValidScan(st)
    ensures ValidScan(r)
    ensures |r.params| <= |st.params| + 1 && KeepsNames(st.params, r.params)
  {
    var h := st.history;
    if h[2] == Uniform then DeclareUniform(st, text)
    else if st.param.Some? && st.inParamStatement && st.valueIndex < 0 && '=' in text then
      st.(valueIndex := 0)
    else StatementToken(st, text, tc)
  }

  /** The name after `uniform <type>`: a new parameter for a supported data type, a diagnostic otherwise. */
  function DeclareUniform(st: Scan, text: string): (r: Scan)
    requires ValidScan(st)
    ensures ValidScan(r)
    ensures |r.params| <= |st.params| + 1 && KeepsNames(st.params, r.params)
  {
    var h := st.history;
    if IsDataType(h[1]) then
      st.(params := st.params + [NewParameter(text, TypeOfUniform(h[1]))], param := Some(|st.params|),
          paramDataType := h[1], valueIndex := -1, inParamStatement := true)
    else Report(st, UnsupportedUniform(text)).(inParamStatement := false)
  }

  /** Any other code token: a value of the initialiser, the end of the statement, or a pass signature. */
  function StatementToken(st: Scan, text: string, tc: Toolchain): (r: Scan)
    requires ValidScan(st)
    ensures ValidScan(r)
    ensures |r.params| == |st.params| && KeepsNames(st.params, r.params)
  {
    var st1 := FillValue(st, text, tc);
    if ';' in text then st1.(inParamStatement := false)
    else if IsPassSignature(st1.history) then ApplyPass(st1)
    else st1
  }

  /** A code token: "in" is dropped; any other class is pushed onto the history first. */
  function CodeStep(st: Scan, text: string, tc: Toolchain): (r: Scan)
    requires ValidScan(st)
    ensures ValidScan(r)
    ensures |r.params| <= |st.params| + 1 && KeepsNames(st.params, r.params)
  {
    ClassStep(st, Classify(text), text, tc)
  }

  /** A code token of class `t`. */
  function ClassStep(st: Scan, t: GlslToken, text: string, tc: Toolchain): (r: Scan)
    requires ValidScan(st)
    ensures ValidScan(r)
    ensures |r.params| <= |st.params| + 1 && KeepsNames(st.params, r.params)
  {
    if t == Ignored then st
    else AfterHistory(st.(history := [t] + st.history[..3]), text, tc)
  }

  function Step(st: Scan, tok: SourceToken, tc: Toolchain): (r: Scan)
    requires ValidScan(st)
    ensures ValidScan(r)
    ensures |r.params| <= |st.params| + 1 && KeepsNames(st.params, r.params)
  {
    match tok
    case Code(text) => CodeStep(st, text, tc)
    case Comment(body) => CommentStep(st, body, tc)
  }

  /** The scan of a token sequence; an abort (`goto load_finalize`) ends it. */
  function ScanAll(st: Scan, toks: seq<SourceToken>, tc: Toolchain): (r: Scan)
    requires ValidScan(st)
    ensures ValidScan(r)
    ensures |r.params| <= |st.params| + |toks| && KeepsNames(st.params, r.params)
    decreases |toks|
  {
    if toks == [] || st.aborted then st
    else ScanAll(Step(st, toks[0], tc), toks[1..], tc)
  }

  ///////////////////////////////////////////////////////////////////////////
  // The token loop

  /** A code token: the history shift loop, then the uniform / value / pass checks. */
  method ApplyCodeToken(st: Scan, text: string, tc: Toolchain) returns (r: Scan)
    requires ValidScan(st)
    ensures r == CodeStep(st, text, tc)
  {
    var t := Classify(text);
    if t == Ignored {
      return st;
    }
    var tt := st.history;
    var i := 3;
    while i > 0
      invariant 0 <= i <= 3 && |tt| == 4
      invariant forall j :: 0 <= j <= i ==> tt[j] == st.history[j]
      invariant forall j :: i < j < 4 ==> tt[j] == st.history[j - 1]
    {
      tt := tt[i := tt[i - 1]];
      i := i - 1;
    }
    tt := tt[0 := t];
    assert tt == [t] + st.history[..3];
    r := AfterHistory(st.(history := tt), text, tc);
  }

  /** The annotation loop of one comment. */
  method EvalAll(st: Scan, anns: seq<Annotation>, tc: Toolchain) returns (r: Scan)
    requires ValidScan(st)
    ensures r == EvalAnnotations(st, anns, tc)
  {
    r := st;
    var i := 0;
    while i < |anns| && !r.aborted
      invariant 0 <= i <= |anns| && ValidScan(r)
      invariant EvalAnnotations(st, anns, tc) == EvalAnnotations(r, anns[i..], tc)
    {
      assert anns[i..][1..] == anns[i + 1..];
      r := EvalAnnotation(r, anns[i], tc);
      i := i + 1;
    }
    assert i == |anns| ==> anns[i..] == [];
  }

  /** A comment: annotation loop, then the description of a parameter comment. */
  method ApplyComment(st: Scan, body: string, tc: Toolchain) returns (r: Scan)
    requires ValidScan(st)
    ensures r == CommentStep(st, body, tc)
  {
    var anns, rest := ExtractAnnotations(CommentContent(body));
    r := EvalAll(st, anns, tc);
    if r.aborted {
      return;
    }
    if r.param.Some? {
      var d := TrimmedText(rest);
      if d != [] {
        r := SetParam(r, r.params[r.param.value].(desc := d));
      }
    }
    r := r.(param := None);
  }

  /** The comment text left after the annotations, with the whitespace at both ends removed. */
  method TrimmedText(rest: string) returns (d: string)
    ensures d == Trimmed(rest)
  {
    var start := SkipWhitespace(Some(rest));
    var tail := rest[start.value..];
    var n := StringLengthWithoutTrailingWhitespace(tail);
    d := tail[..n];
  }

  /** One token of either kind. */
  method ApplyToken(st: Scan, tok: SourceToken, tc: Toolchain) returns (r: Scan)
    requires ValidScan(st)
    ensures r == Step(st, tok, tc)
  {
    match tok
    case Code(text) => r := ApplyCodeToken(st, text, tc);
    case Comment(body) => r := ApplyComment(st, body, tc);
  }

  lemma ScanAllStep(st: Scan, toks: seq<SourceToken>, tc: Toolchain)
    requires ValidScan(st) && toks != [] && !st.aborted
    ensures ScanAll(st, toks, tc) == ScanAll(Step(st, toks[0], tc), toks[1..], tc)
  {
  }

  /** The tokenizer loop of `Node::load`. */
  method ScanTokens(tokens: seq<SourceToken>, passes: seq<PassData>, tc: Toolchain) returns (st: Scan)
    requires |passes| == MaxPasses
    ensures st == ScanAll(InitialScan(passes), tokens, tc)
  {
    st := InitialScan(passes);
    var i := 0;
    while i < |tokens| && !st.aborted
      invariant 0 <= i <= |tokens| && ValidScan(st)
      invariant ScanAll(InitialScan(passes), tokens, tc) == ScanAll(st, tokens[i..], tc)
    {
      ScanAllStep(st, tokens[i..], tc);
      assert tokens[i..][1..] == tokens[i + 1..];
      st := ApplyToken(st, tokens[i], tc);
      i := i + 1;
    }
    assert i == |tokens| ==> tokens[i..] == [];
  }

  ///////////////////////////////////////////////////////////////////////////
  // Finalisation

  /** `std::to_string` of a non-negative number. */
  function DecimalString(n: nat): (s: string)
    ensures |s| > 0 && forall i :: 0 <= i < |s| ==> IsDigit(s[i])
  {
    if n < 10 then [('0' as int + n) as char]
    else DecimalString(n / 10) + [('0' as int + n % 10) as char]
  }

  /** The number a string of decimal digits denotes. */
  function DecimalValue(s: string): nat
    requires forall i :: 0 <= i < |s| ==> IsDigit(s[i])
  {
    if s == [] then 0
    else
      assert IsDigit(s[|s| - 1]);
      DecimalValue(s[..|s| - 1]) * 10 + (s[|s| - 1] as int - '0' as int)
  }

  /** Reading back the digits `to_string` wrote gives the number. */
  lemma {:induction false} DecimalRoundTrip(n: nat)
    ensures DecimalValue(DecimalString(n)) == n
  {
    if n >= 10 {
      var s := DecimalString(n);
      assert s[..|s| - 1] == DecimalString(n / 10);
      DecimalRoundTrip(n / 10);
    }
  }

  /** The `printf` format of a parameter: `%.<digits>f`, then a space and the unit if there is one. */
  function FormatString(digits: nat, unit: string): string {
    var fmt := "%." + DecimalString(digits) + "f";
    if unit == [] then fmt else fmt + " " + unit
  }

  /**
   * One parameter after the scan: digits derived when not given, the format
   * string built, and the current value of a parameter of the same name in
   * the node's previous parameter list carried over.
   */
  function FinalParam(p: Parameter, oldParams: seq<Parameter>, tc: Toolchain): (q: Parameter)
    ensures q.name == p.name && q.ptype == p.ptype && q.desc == p.desc && q.digits >= 0
  {
    var d: nat := if p.digits < 0 then tc.autoDigits(p.minValue, p.maxValue) else p.digits;
    var q := p.(digits := d, format := FormatString(d, p.format));
    match FirstNamed(oldParams, p.name)
    case Some(k) => q.(value := oldParams[k].value)
    case None => q
  }

  /** The finalisation loop over `newParams`. */
  method FinalizeParams(ps: seq<Parameter>, oldParams: seq<Parameter>, tc: Toolchain) returns (r: seq<Parameter>)
    ensures |r| == |ps|
    ensures forall i :: 0 <= i < |ps| ==> r[i] == FinalParam(ps[i], oldParams, tc)
  {
    r := ps;
    var i := 0;
    while i < |r|
      invariant 0 <= i <= |r| == |ps|
      invariant forall j :: 0 <= j < i ==> r[j] == FinalParam(ps[j], oldParams, tc)
      invariant forall j :: i <= j < |r| ==> r[j] == ps[j]
    {
      var p := r[i];
      if p.digits < 0 {
        p := p.(digits := tc.autoDigits(p.minValue, p.maxValue));
      }
      var fmt := "%." + DecimalString(p.digits) + "f";
      if p.format == [] {
        p := p.(format := fmt);
      } else {
        p := p.(format := fmt + " " + p.format);
      }
      var oldParam := FindParam(oldParams, p.name);
      if oldParam.Some? {
        p := p.(value := oldParams[oldParam.value].value);
      }
      r := r[i := p];
      i := i + 1;
    }
  }

  ///////////////////////////////////////////////////////////////////////////
  // Code generation

  /** The name of the user function pass `k` calls: `run` only for the first pass of a single-pass shader. */
  function CallName(k: nat, singlePass: bool): string {
    if k != 0 || !singlePass then "run_pass" + DecimalString(k + 1) else "run"
  }

  /** The `gips_frag = ...;` statement and the end of `main()`. */
  function OutputStatement(k: nat, input: PassInput, output: PassOutput, singlePass: bool): string {
    var arg := match input
      case InCoord => "(gips_pos)"
      case InRGB => "(color.rgb)"
      case InRGBA => "(color)";
    var call := CallName(k, singlePass) + arg;
    var expr := if output == OutRGBA then call
                else if input == InCoord then "vec4(" + call + ", 1.0)"
                else "vec4(" + call + ", color.a)";
    "  gips_frag = " + expr + ";\n}\n"
  }

  /** What the loader generates a fragment shader from: the user's code and the pass's signature. */
  datatype GeneratedShader = GeneratedShader(code: string, pass: nat, input: PassInput, output: PassOutput, singlePass: bool)

  /** The fragment shader text generated for a pass around the user's code. */
  function ShaderText(g: GeneratedShader): string {
    "#version 330 core\n#line 8000 0\nin vec2 gips_pos;\nout vec4 gips_frag;\n"
    + "uniform sampler2D gips_tex;\nuniform vec2 gips_image_size;\n"
    + (if g.input == InCoord then
         "uniform vec4 gips_map2tex;\nvec4 pixel(in vec2 pos) {\n"
         + "  return texture(gips_tex, gips_map2tex.xy + pos * gips_map2tex.zw);\n}\n"
       else "")
    + "#line 1 " + DecimalString(g.pass + 1) + "\n" + g.code
    + "\n#line 9000 0\nvoid main() {\n"
    + (if g.input != InCoord then "  vec4 color = texture(gips_tex, gips_pos);\n" else "")
    + OutputStatement(g.pass, g.input, g.output, g.singlePass)
  }

  /** The generated call names the function whose signature declared the pass. */
  lemma CallNameDeclaresPass(k: nat, singlePass: bool)
    requires k < MaxPasses
    ensures IsRun(Classify(CallName(k, singlePass)))
    ensures PassOf(Classify(CallName(k, singlePass))) == k
    ensures Classify(CallName(k, singlePass)) == RunSingle <==> k == 0 && singlePass
  {
    var j := if k == 0 && singlePass then 6 else 7 + k;
    assert CallName(k, singlePass) == TokenMap[j].pattern.value by {
      CallNameRow(k, singlePass, j);
    }
    ClassifyListed(j);
  }

  /** The call name of pass `k` is the pattern of row `j` of the token table. */
  lemma CallNameRow(k: nat, singlePass: bool, j: nat)
    requires k < MaxPasses && j == if k == 0 && singlePass then 6 else 7 + k
    ensures j < |TokenMap| && TokenMap[j].pattern.Some? && CallName(k, singlePass) == TokenMap[j].pattern.value
  {
    assert DecimalString(k + 1) == [('0' as int + k + 1) as char];
    if j == 6 {
      assert CallName(k, singlePass) == "run";
    } else if j == 7 {
      assert CallName(k, singlePass) == "run_pass1";
    } else if j == 8 {
      assert CallName(k, singlePass) == "run_pass2";
    } else if j == 9 {
      assert CallName(k, singlePass) == "run_pass3";
    } else {
      assert CallName(k, singlePass) == "run_pass4";
    }
  }

  ///////////////////////////////////////////////////////////////////////////
  // Pass instantiation

  /** Whether a pass's data type pair says its input is a colour (no coordinate mapping then). */
  function ForcedPass(pd: PassData, input: PassInput): PassData {
    if input != InCoord then pd.(coordMode := MapNone) else pd
  }

  /** How many passes from pass 0 on are declared without a gap. */
  function Consecutive(mask: set<nat>, k: nat): (n: nat)
    requires k <= MaxPasses
    ensures k <= n <= MaxPasses
    ensures forall j :: k <= j < n ==> j in mask
    ensures n < MaxPasses ==> n !in mask
    decreases MaxPasses - k
  {
    if k < MaxPasses && k in mask then Consecutive(mask, k + 1) else k
  }

  /** The outcome of the pass loop: the pass settings, the pass count and the messages. */
  datatype BuildResult = BuildResult(passes: seq<PassData>, passCount: nat, errors: seq<Diagnostic>)

  /**
   * The pass loop from pass `k` on: each declared pass gets its settings
   * fixed and its shader built; the first build failure ends the load with
   * no pass at all; after the last consecutive pass, any later declared pass
   * is reported as missing its predecessors.
   */
  function BuildFrom(st: Scan, code: string, tc: Toolchain, k: nat, passes: seq<PassData>, errors: seq<Diagnostic>): (r: BuildResult)
    requires ValidScan(st) && k <= MaxPasses && |passes| == MaxPasses
    ensures |r.passes| == MaxPasses
    decreases MaxPasses - k
  {
    if k < MaxPasses && k in st.passMask then
      var ps := passes[k := ForcedPass(passes[k], st.inputs[k])];
      if !tc.builds(GeneratedShader(code, k, st.inputs[k], st.outputs[k], st.singlePass)) then
        BuildResult(ps, 0, errors + [BuildFailed(k)])
      else BuildFrom(st, code, tc, k + 1, ps, errors)
    else
      BuildResult(passes, k, errors + if exists j :: j in st.passMask && j >= k then [MissingPasses] else [])
  }

  /** The pass instantiation loop of `Node::load` (only entered when pass 0 is declared). */
  method BuildPasses(st: Scan, code: string, tc: Toolchain) returns (r: BuildResult)
    requires ValidScan(st)
    ensures r == BuildFrom(st, code, tc, 0, st.passes, st.errors)
  {
    var passes := st.passes;
    var errors := st.errors;
    var mask := st.passMask;
    var currentPass := 0;
    while currentPass < MaxPasses && currentPass in mask
      invariant 0 <= currentPass <= MaxPasses && |passes| == MaxPasses
      invariant forall j :: j in mask <==> j in st.passMask && j >= currentPass
      invariant BuildFrom(st, code, tc, 0, st.passes, st.errors) == BuildFrom(st, code, tc, currentPass, passes, errors)
      decreases MaxPasses - currentPass
    {
      mask := mask - {currentPass};
      passes := passes[currentPass := ForcedPass(passes[currentPass], st.inputs[currentPass])];
      var source := GeneratedShader(code, currentPass, st.inputs[currentPass], st.outputs[currentPass], st.singlePass);
      if !tc.builds(source) {
        return BuildResult(passes, 0, errors + [BuildFailed(currentPass)]);
      }
      currentPass := currentPass + 1;
    }
    assert (mask != {}) == exists j :: j in st.passMask && j >= currentPass;
    if mask != {} {
      errors := errors + [MissingPasses];
    }
    r := BuildResult(passes, currentPass, errors);
  }

  /** The pass count is 0, or the number of passes declared without a gap from the first on. */
  lemma {:induction false} BuildCount(st: Scan, code: string, tc: Toolchain, k: nat, passes: seq<PassData>, errors: seq<Diagnostic>)
    requires ValidScan(st) && k <= MaxPasses && |passes| == MaxPasses
    ensures var r := BuildFrom(st, code, tc, k, passes, errors);
      r.passCount == 0 || r.passCount == Consecutive(st.passMask, k)
    ensures var r := BuildFrom(st, code, tc, k, passes, errors);
      r.passCount == Consecutive(st.passMask, k) <==>
        forall j :: k <= j < Consecutive(st.passMask, k) ==>
          tc.builds(GeneratedShader(code, j, st.inputs[j], st.outputs[j], st.singlePass))
    decreases MaxPasses - k
  {
    if k < MaxPasses && k in st.passMask {
      var ps := passes[k := ForcedPass(passes[k], st.inputs[k])];
      BuildCount(st, code, tc, k + 1, ps, errors);
    }
  }

  /**
   * When every pass of the gap-free run builds, the pass loop reports
   * "intermediate passes are missing" exactly when a pass beyond the run is
   * declared.
   */
  lemma {:induction false} MissingPassesReported(st: Scan, code: string, tc: Toolchain, k: nat, passes: seq<PassData>,
                                                 errors: seq<Diagnostic>)
    requires ValidScan(st) && k <= MaxPasses && |passes| == MaxPasses
    requires forall j :: k <= j < Consecutive(st.passMask, k) ==>
      tc.builds(GeneratedShader(code, j, st.inputs[j], st.outputs[j], st.singlePass))
    ensures BuildFrom(st, code, tc, k, passes, errors).errors ==
      errors + if exists j :: j in st.passMask && j >= Consecutive(st.passMask, k) then [MissingPasses] else []
    decreases MaxPasses - k
  {
    if k < MaxPasses && k in st.passMask {
      var ps := passes[k := ForcedPass(passes[k], st.inputs[k])];
      MissingPassesReported(st, code, tc, k + 1, ps, errors);
    }
  }

  /**
   * An RGB result is widened to RGBA with alpha 1.0 when the pass reads
   * coordinates and with the source pixel's alpha otherwise; an RGBA result
   * is stored as it is.
   */
  lemma OutputAlpha(k: nat, input: PassInput, output: PassOutput, singlePass: bool)
    ensures var call := CallName(k, singlePass) + (if input == InCoord then "(gips_pos)"
                                                   else if input == InRGB then "(color.rgb)" else "(color)");
      OutputStatement(k, input, output, singlePass) == "  gips_frag = " +
        (if output == OutRGBA then call
         else if input == InCoord then "vec4(" + call + ", 1.0)"
         else "vec4(" + call + ", color.a)") + ";\n}\n"
  {
  }

  ///////////////////////////////////////////////////////////////////////////
  // Properties of the scan

  /** "in" never enters the history: the token leaves the whole scan state as it was. */
  lemma InIsDropped(st: Scan, tc: Toolchain)
    requires ValidScan(st)
    ensures CodeStep(st, "in", tc) == st
  {
    ClassifyListed(0);
  }

  /**
   * `uniform <type> <name>`: once "uniform" and a type are the two latest
   * history entries, the name creates exactly one parameter of the type's
   * kind when the type is `float` or `vecN`, and only an error otherwise.
   */
  lemma UniformDeclaration(st: Scan, t: GlslToken, name: string, tc: Toolchain)
    requires ValidScan(st) && t != Ignored
    requires st.history[1] == Uniform
    ensures var r := ClassStep(st, t, name, tc);
      if IsDataType(st.history[0]) then
        r.params == st.params + [NewParameter(name, TypeOfUniform(st.history[0]))]
        && r.param == Some(|st.params|) && r.errors == st.errors
      else
        r.params == st.params && r.errors == st.errors + [UnsupportedUniform(name)]
  {
  }

  /** The conditions under which a code token completes a pass signature. */
  predicate EndsPassSignature(st: Scan, t: GlslToken, arg: string)
    requires ValidScan(st)
  {
    && (t == Vec2 || t == Vec3 || t == Vec4)
    && '=' !in arg && ';' !in arg
    && st.history[0] == OpenParens && IsRun(st.history[1])
    && (st.history[2] == Vec3 || st.history[2] == Vec4)
  }

  /** The last token of a pass signature applies the pass once any value it carries is taken. */
  lemma PassApplies(st: Scan, t: GlslToken, arg: string, tc: Toolchain)
    requires ValidScan(st) && EndsPassSignature(st, t, arg)
    ensures var s1 := st.(history := [t] + st.history[..3]);
      ClassStep(st, t, arg, tc) == ApplyPass(FillValue(s1, arg, tc))
  {
    var s1 := st.(history := [t] + st.history[..3]);
    var s2 := FillValue(s1, arg, tc);
    assert s1.history[2] != Uniform;
    assert IsPassSignature(s2.history);
  }

  /**
   * A pass signature `<vec3|vec4> run[_passN] ( <vec2|vec3|vec4>`: its last
   * token declares the pass and records the filter and coordinate settings
   * in force for it.
   */
  lemma PassDeclaration(st: Scan, t: GlslToken, arg: string, tc: Toolchain)
    requires ValidScan(st) && EndsPassSignature(st, t, arg)
    ensures ClassStep(st, t, arg, tc).passMask == st.passMask + {PassOf(st.history[1])}
    ensures ClassStep(st, t, arg, tc).passes[PassOf(st.history[1])] == PassData(st.texFilter, st.coordMode)
  {
    PassApplies(st, t, arg, tc);
  }

  /** The pass declared by a pass signature takes its input from the argument type and its output from the return type. */
  lemma PassFormats(st: Scan, t: GlslToken, arg: string, tc: Toolchain)
    requires ValidScan(st) && EndsPassSignature(st, t, arg)
    ensures ClassStep(st, t, arg, tc).inputs[PassOf(st.history[1])]
              == if t == Vec2 then InCoord else if t == Vec3 then InRGB else InRGBA
    ensures ClassStep(st, t, arg, tc).outputs[PassOf(st.history[1])]
              == if st.history[2] == Vec3 then OutRGB else OutRGBA
  {
    PassApplies(st, t, arg, tc);
  }

  /**
   * In a uniform statement, a token holding '=' opens the initialiser: the
   * next value goes to slot 0.
   */
  lemma InitialiserStart(st: Scan, t: GlslToken, text: string, tc: Toolchain)
    requires ValidScan(st) && t != Ignored && st.history[1] != Uniform
    requires st.param.Some? && st.inParamStatement && st.valueIndex < 0 && '=' in text
    ensures ClassStep(st, t, text, tc) == st.(history := [t] + st.history[..3], valueIndex := 0)
  {
  }

  /**
   * Inside the initialiser, each number fills the next of the four value
   * slots of the parameter being declared, numbers past the fourth and
   * other tokens leave the values alone, and a token holding ';' ends the
   * statement.
   */
  lemma InitialiserValue(st: Scan, t: GlslToken, text: string, tc: Toolchain)
    requires ValidScan(st) && t != Ignored && st.history[1] != Uniform
    requires st.param.Some? && st.inParamStatement && st.valueIndex >= 0
    ensures var r := ClassStep(st, t, text, tc);
      var i, p := st.param.value, st.params[st.param.value];
      if st.valueIndex < 4 && NumberOf(tc, text).Some? then
        r.params == st.params[i := p.(value := p.value[st.valueIndex := NumberOf(tc, text).value])]
        && r.valueIndex == st.valueIndex + 1
      else r.params == st.params && r.valueIndex == st.valueIndex
    ensures ';' in text ==> !ClassStep(st, t, text, tc).inParamStatement
    ensures ClassStep(st, t, text, tc).param == st.param
  {
  }

  /**
   * The pass mode of a pass signature: `run` selects single-pass mode,
   * `run_pass1` multi-pass mode, and the later passes keep the mode.
   */
  lemma PassMode(st: Scan, t: GlslToken, arg: string, tc: Toolchain)
    requires ValidScan(st) && EndsPassSignature(st, t, arg)
    ensures ClassStep(st, t, arg, tc).singlePass
              == if st.history[1] == RunSingle then true
                 else if st.history[1] == RunPass1 then false
                 else st.singlePass
  {
    PassApplies(st, t, arg, tc);
  }

  /**
   * Scope checking: a parameter key outside a parameter comment and a global
   * key inside one each give exactly one scope error and change nothing else;
   * an unknown key gives "unrecognized".
   */
  lemma AnnotationScope(st: Scan, a: Annotation, tc: Toolchain)
    requires ValidScan(st)
    ensures IsParamKey(a.key) && st.param.None? ==> EvalAnnotation(st, a, tc) == Report(st, NeedsParamScope(a.key))
    ensures IsGlobalKey(a.key) && st.param.Some? ==> EvalAnnotation(st, a, tc) == Report(st, NeedsGlobalScope(a.key))
    ensures !IsParamKey(a.key) && !IsGlobalKey(a.key) ==> EvalAnnotation(st, a, tc) == Report(st, UnrecognizedAnnotation(a.key))
  {
  }

  /** `@version` above 1.0 in a global comment aborts the load; a supported version changes nothing. */
  lemma VersionGate(st: Scan, v: string, tc: Toolchain)
    requires ValidScan(st) && st.param.None?
    requires NumberOf(tc, v).Some?
    ensures var r := EvalAnnotation(st, Annotation("version", Some(v)), tc);
      if NumberOf(tc, v).value > MaxSupportedVersion then
        r.aborted && r.errors == st.errors + [VersionTooNew(NumberOf(tc, v).value)]
      else r == st
  {
    assert IsGlobalKey("version");
  }

  /** Once the scan has aborted, no further token changes anything. */
  lemma {:induction false} AbortIsFinal(st: Scan, toks: seq<SourceToken>, tc: Toolchain)
    requires ValidScan(st)
    ensures ScanAll(st, toks, tc).aborted ==> (st.aborted || toks != [])
    ensures st.aborted ==> ScanAll(st, toks, tc) == st
  {
  }

  /** The scan of a concatenation is the scan of the second part from where the first one left off. */
  lemma {:induction false} ScanAllAppend(st: Scan, a: seq<SourceToken>, b: seq<SourceToken>, tc: Toolchain)
    requires ValidScan(st)
    ensures ScanAll(st, a + b, tc) == ScanAll(ScanAll(st, a, tc), b, tc)
    decreases |a|
  {
    if a != [] && !st.aborted {
      assert (a + b)[1..] == a[1..] + b;
      ScanAllAppend(Step(st, a[0], tc), a[1..], b, tc);
    } else if a == [] {
      assert a + b == b;
    }
  }

  ///////////////////////////////////////////////////////////////////////////
  // Properties of the finalisation

  /**
   * The format string reads back: "%.", then the digits of the digit count,
   * then "f", then a space and the unit when there is one.
   */
  lemma FormatReadsBack(digits: nat, unit: string)
    ensures var f := FormatString(digits, unit); var n := |DecimalString(digits)|;
      && |f| >= n + 3 && f[..2] == "%." && f[n + 2] == 'f'
      && (forall i :: 2 <= i < n + 2 ==> IsDigit(f[i]))
      && DecimalValue(f[2..n + 2]) == digits
      && (unit == [] <==> |f| == n + 3)
      && (unit != [] ==> f[n + 3] == ' ' && f[n + 4..] == unit)
  {
    var f := FormatString(digits, unit);
    var n := |DecimalString(digits)|;
    assert f[2..n + 2] == DecimalString(digits);
    DecimalRoundTrip(digits);
  }

  /** A finalised parameter carries over the value of the first old parameter of its name, if any. */
  lemma CarryOver(p: Parameter, oldParams: seq<Parameter>, tc: Toolchain)
    ensures var q := FinalParam(p, oldParams, tc);
      && ((forall j :: 0 <= j < |oldParams| ==> oldParams[j].name != p.name) ==> q.value == p.value)
      && (forall j ::
            (0 <= j < |oldParams| && oldParams[j].name == p.name
             && forall i :: 0 <= i < j ==> oldParams[i].name != p.name)
            ==> q.value == oldParams[j].value)
  {
    var r := FirstNamed(oldParams, p.name);
    if r.Some? {
      forall j | 0 <= j < |oldParams| && oldParams[j].name == p.name && (forall i :: 0 <= i < j ==> oldParams[i].name != p.name)
        ensures j == r.value
      {
        FirstNamedUnique(oldParams, p.name, j);
      }
    }
  }

  ///////////////////////////////////////////////////////////////////////////
  // The whole load

  /** The node fields `Node::load` writes from `m_passCount = 0` on. */
  datatype LoadResult = LoadResult(errors: seq<Diagnostic>, params: seq<Parameter>, passes: seq<PassData>, passCount: nat)

  function FinalParams(ps: seq<Parameter>, oldParams: seq<Parameter>, tc: Toolchain): (r: seq<Parameter>)
    ensures |r| == |ps| && forall i :: 0 <= i < |ps| ==> r[i] == FinalParam(ps[i], oldParams, tc)
  {
    seq(|ps|, i requires 0 <= i < |ps| => FinalParam(ps[i], oldParams, tc))
  }

  /**
   * The outcome of loading `filename` into a node whose parameters and pass
   * settings were `oldParams` and `oldPasses`: an unreadable file; a scan
   * aborted by `@version` (parameters kept as scanned, not finalised); no
   * first pass; or the pass loop.
   */
  function LoadFile(filename: string, oldParams: seq<Parameter>, oldPasses: seq<PassData>, tc: Toolchain): (r: LoadResult)
    requires |oldPasses| == MaxPasses
    ensures |r.passes| == MaxPasses
  {
    match tc.read(filename)
    case None => LoadResult([OpenFailed(filename)], [], oldPasses, 0)
    case Some(code) =>
      var st := ScanAll(InitialScan(oldPasses), tc.tokenize(code), tc);
      if st.aborted then LoadResult(st.errors, st.params, st.passes, 0)
      else
        var ps := FinalParams(st.params, oldParams, tc);
        if 0 !in st.passMask then LoadResult(st.errors + [NoRunFunction], ps, st.passes, 0)
        else
          var b := BuildFrom(st, code, tc, 0, st.passes, st.errors);
          LoadResult(b.errors, ps, b.passes, b.passCount)
  }

  /** `Node::load` from opening the file to `load_finalize`. */
  method LoadShader(filename: string, oldParams: seq<Parameter>, oldPasses: seq<PassData>, tc: Toolchain) returns (r: LoadResult)
    requires |oldPasses| == MaxPasses
    ensures r == LoadFile(filename, oldParams, oldPasses, tc)
  {
    var code := tc.read(filename);
    if code.None? {
      return LoadResult([OpenFailed(filename)], [], oldPasses, 0);
    }
    var st := ScanTokens(tc.tokenize(code.value), oldPasses, tc);
    if st.aborted {
      return LoadResult(st.errors, st.params, st.passes, 0);
    }
    var ps := FinalizeParams(st.params, oldParams, tc);
    if 0 !in st.passMask {
      return LoadResult(st.errors + [NoRunFunction], ps, st.passes, 0);
    }
    var b := BuildPasses(st, code.value, tc);
    r := LoadResult(b.errors, ps, b.passes, b.passCount);
  }

  /**
   * A load succeeds exactly when the file is read, the scan is not aborted,
   * pass 0 is declared and every consecutively declared pass builds; the
   * pass count is then the number of those passes, and otherwise 0.
   */
  lemma LoadPassCount(filename: string, oldParams: seq<Parameter>, oldPasses: seq<PassData>, tc: Toolchain)
    requires |oldPasses| == MaxPasses
    ensures var r := LoadFile(filename, oldParams, oldPasses, tc);
      r.passCount > 0 <==>
        tc.read(filename).Some? &&
        var code := tc.read(filename).value;
        var st := ScanAll(InitialScan(oldPasses), tc.tokenize(code), tc);
        && !st.aborted && 0 in st.passMask
        && r.passCount == Consecutive(st.passMask, 0)
        && forall j :: 0 <= j < Consecutive(st.passMask, 0) ==>
             tc.builds(GeneratedShader(code, j, st.inputs[j], st.outputs[j], st.singlePass))
  {
    match tc.read(filename)
    case None =>
    case Some(code) =>
      var st := ScanAll(InitialScan(oldPasses), tc.tokenize(code), tc);
      if !st.aborted && 0 in st.passMask {
        BuildCount(st, code, tc, 0, st.passes, st.errors);
      }
  }
}
