/**
 * Character classification, lookup tables and whitespace / path helpers
 * (src/string_util.h, src/string_util.cpp).
 *
 * A C string is modelled by its contents, the characters before the
 * terminating NUL (`string`), and a nullable one by `Option<string>`.
 * Functions that write a NUL into the caller's buffer take an `array<char>`
 * that holds a terminated string.
 */
module StringUtil {

  datatype Option<T> = None | Some(value: T)

  /** C `isspace` in the "C" locale: space, \t, \n, \v, \f, \r. */
  predicate IsSpace(c: char) {
    c == ' ' || ('\t' <= c <= '\r')
  }

  predicate IsDigit(c: char) { '0' <= c <= '9' }

  predicate IsAlpha(c: char) { ('a' <= c <= 'z') || ('A' <= c <= 'Z') }

  predicate IsAlnum(c: char) { IsAlpha(c) || IsDigit(c) }

  /**
   * C `tolower` in the "C" locale (used by the annotation parser and the
   * directory order), and `ce_tolower`, its constexpr copy.
   */
  function ToLower(c: char): (r: char)
    ensures 'A' <= c <= 'Z' ==> 'a' <= r <= 'z' && r as int == c as int + 32
    ensures !('A' <= c <= 'Z') ==> r == c
  {
    if 'A' <= c <= 'Z' then (c as int + 32) as char else c
  }

  function LowerString(s: string): (r: string)
    ensures |r| == |s|
  {
    seq(|s|, i requires 0 <= i < |s| => ToLower(s[i]))
  }

  /** `isident`: the characters that may form an `@key=value` annotation token. */
  predicate IsIdent(c: char) {
    c != '\0' && (IsAlnum(c) || c == '_' || c == '.' || c == '-' || c == '+' || c == '/')
  }

  /** The annotation parser relies on identifiers stopping at '=', '@' and whitespace. */
  lemma IdentExcludesSeparators(c: char)
    requires c == '=' || c == '@' || c == '\0' || c == '*' || IsSpace(c)
    ensures !IsIdent(c)
  {
  }

  ///////////////////////////////////////////////////////////////////////////

  /** One row of a lookup table; the row whose pattern is null ends the table. */
  datatype LookupEntry<T> = LookupEntry(pattern: Option<string>, value: T)

  predicate HasSentinel<T>(table: seq<LookupEntry<T>>) {
    exists k :: 0 <= k < |table| && table[k].pattern.None?
  }

  /** Index of the row at which the scan of `lookup` stops, starting at row `from`. */
  function StopIndex<T>(table: seq<LookupEntry<T>>, s: string, from: nat): (k: nat)
    requires from <= |table|
    requires exists j :: from <= j < |table| && table[j].pattern.None?
    ensures from <= k < |table|
    ensures table[k].pattern == None || table[k].pattern == Some(s)
    ensures forall j :: from <= j < k ==> table[j].pattern.Some? && table[j].pattern.value != s
    decreases |table| - from
  {
    if table[from].pattern.None? || table[from].pattern.value == s then from
    else StopIndex(table, s, from + 1)
  }

  /**
   * `lookup`: the value of the first row whose pattern equals `s`, or the value
   * of the terminating null-pattern row; a null table or string gives T(0).
   */
  function Lookup<T>(table: Option<seq<LookupEntry<T>>>, s: Option<string>, zero: T): (r: T)
    requires table.Some? ==> HasSentinel(table.value)
    ensures table.None? || s.None? ==> r == zero
    ensures table.Some? && s.Some? ==>
      exists k :: 0 <= k < |table.value| && r == table.value[k].value
        && (table.value[k].pattern == None || table.value[k].pattern == s)
        && (forall j :: 0 <= j < k ==> table.value[j].pattern.Some? && table.value[j].pattern != s)
  {
    if table.None? || s.None? then zero
    else table.value[StopIndex(table.value, s.value, 0)].value
  }

  /** A string listed in a table (before its sentinel) is found with its own value. */
  lemma {:induction false} LookupFindsListed<T>(table: seq<LookupEntry<T>>, s: string, k: nat, zero: T)
    requires HasSentinel(table)
    requires k < |table| && table[k].pattern == Some(s)
    requires forall j :: 0 <= j < k ==> table[j].pattern.Some? && table[j].pattern != Some(s)
    ensures Lookup(Some(table), Some(s), zero) == table[k].value
  {
    var i := StopIndex(table, s, 0);
    assert i == k;
  }

  ///////////////////////////////////////////////////////////////////////////

  /** Index of the last non-whitespace character of `s`, or -1 if there is none. */
  function LastNonSpace(s: string): (k: int)
    ensures -1 <= k < |s|
    ensures k >= 0 ==> !IsSpace(s[k])
    ensures forall j :: k < j < |s| ==> IsSpace(s[j])
  {
    if s == [] then -1
    else if !IsSpace(s[|s| - 1]) then |s| - 1
    else LastNonSpace(s[..|s| - 1])
  }

  /**
   * `stringLengthWithoutTrailingWhitespace`: one past the last non-whitespace
   * character, 0 if there is none.
   */
  method StringLengthWithoutTrailingWhitespace(s: string) returns (n: nat)
    ensures n == LastNonSpace(s) + 1
    ensures n <= |s|
    ensures forall j :: n <= j < |s| ==> IsSpace(s[j])
    ensures n > 0 ==> !IsSpace(s[n - 1])
  {
    var lastNonWS := 0;
    var i := 0;
    while i < |s|
      invariant 0 <= lastNonWS <= i <= |s|
      invariant lastNonWS > 0 ==> !IsSpace(s[lastNonWS - 1])
      invariant forall j :: lastNonWS <= j < i ==> IsSpace(s[j])
    {
      if !IsSpace(s[i]) { lastNonWS := i + 1; }
      i := i + 1;
    }
    n := lastNonWS;
    LastNonSpaceUnique(s, n - 1);
  }

  /** The two properties of `LastNonSpace` determine it. */
  lemma LastNonSpaceUnique(s: string, k: int)
    requires -1 <= k < |s|
    requires k >= 0 ==> !IsSpace(s[k])
    requires forall j :: k < j < |s| ==> IsSpace(s[j])
    ensures k == LastNonSpace(s)
  {
    var m := LastNonSpace(s);
    assert m == k;
  }

  /** Number of occurrences of `c` in `s`. */
  function Count(s: string, c: char): (n: nat)
    ensures n <= |s|
  {
    if s == [] then 0 else Count(s[..|s| - 1], c) + (if s[|s| - 1] == c then 1 else 0)
  }

  /** The 1-based number of the last line that holds a non-whitespace character, 0 if none. */
  function LinesWithContent(s: string): nat {
    var k := LastNonSpace(s);
    if k < 0 then 0 else Count(s[..k], '\n') + 1
  }

  /** `countLines` */
  method CountLines(s: string) returns (realLines: nat)
    ensures realLines == LinesWithContent(s)
  {
    var lines := 1;
    realLines := 0;
    var i := 0;
    ghost var last := -1;
    while i < |s|
      invariant 0 <= i <= |s|
      invariant lines == Count(s[..i], '\n') + 1
      invariant last == LastNonSpace(s[..i])
      invariant realLines == (if last < 0 then 0 else Count(s[..last], '\n') + 1)
    {
      assert s[..i + 1][..i] == s[..i];
      if s[i] == '\n' {
        lines := lines + 1;
      } else if !IsSpace(s[i]) {
        realLines := lines;
        last := i;
      }
      i := i + 1;
    }
    assert s[..i] == s;
  }

  /** Counting a prefix never yields more than counting the whole string. */
  lemma {:induction false} CountPrefix(s: string, k: nat, c: char)
    requires k <= |s|
    ensures Count(s[..k], c) <= Count(s, c)
    decreases |s|
  {
    if k < |s| {
      assert s[..|s| - 1][..k] == s[..k];
      CountPrefix(s[..|s| - 1], k, c);
    } else {
      assert s[..k] == s;
    }
  }

  /** `countLines` never exceeds the number of line feeds plus one. */
  lemma CountLinesBound(s: string)
    ensures LinesWithContent(s) <= Count(s, '\n') + 1
    ensures LinesWithContent(s) == 0 <==> forall j :: 0 <= j < |s| ==> IsSpace(s[j])
  {
    var k := LastNonSpace(s);
    if k >= 0 { CountPrefix(s, k, '\n'); }
  }

  ///////////////////////////////////////////////////////////////////////////

  /** Length of the terminated string held in a buffer: the index of its first NUL. */
  function CLen(a: seq<char>): (n: nat)
    requires '\0' in a
    ensures n < |a| && a[n] == '\0'
    ensures forall j :: 0 <= j < n ==> a[j] != '\0'
  {
    if a[0] == '\0' then 0 else CLen(a[1..]) + 1
  }

  /** The string a terminated buffer holds. */
  function CStr(a: seq<char>): (s: string)
    requires '\0' in a
    ensures |s| == CLen(a) && s == a[..CLen(a)]
  {
    a[..CLen(a)]
  }

  /** Writing a NUL at or before the end of a buffer's string truncates the string there. */
  lemma CutAt(a: seq<char>, k: nat)
    requires '\0' in a && k <= CLen(a)
    ensures '\0' in a[k := '\0']
    ensures CStr(a[k := '\0']) == CStr(a)[..k]
  {
    var b := a[k := '\0'];
    assert b[k] == '\0';
    assert CLen(b) == k;
  }

  /**
   * `trimTrailingWhitespace`: writes a NUL right after the last non-whitespace
   * character of the string held in `s`.
   */
  method TrimTrailingWhitespace(s: array<char>)
    requires '\0' in s[..]
    modifies s
    ensures '\0' in s[..]
    ensures s[..] == old(s[..])[LastNonSpace(CStr(old(s[..]))) + 1 := '\0']
    ensures CStr(s[..]) == CStr(old(s[..]))[..LastNonSpace(CStr(old(s[..]))) + 1]
  {
    var n := StringLengthWithoutTrailingWhitespace(CStr(s[..]));
    CutAt(s[..], n);
    s[n] := '\0';
  }

  /** After trimming, the string keeps its prefix and has no trailing whitespace. */
  lemma TrimmedHasNoTrailingSpace(s: string)
    ensures var t := s[..LastNonSpace(s) + 1];
      t <= s && (|t| == 0 || !IsSpace(t[|t| - 1]))
      && forall j :: |t| <= j < |s| ==> IsSpace(s[j])
  {
  }

  /**
   * `skipWhitespace`: the index of the first character at or after the start
   * that is not whitespace (the terminator's index if there is none); null stays null.
   */
  method SkipWhitespace(s: Option<string>) returns (r: Option<nat>)
    ensures r.None? <==> s.None?
    ensures r.Some? ==> r.value == FirstNonSpace(s.value)
    ensures r.Some? ==> r.value <= |s.value|
    ensures r.Some? ==> forall j :: 0 <= j < r.value ==> IsSpace(s.value[j])
    ensures r.Some? && r.value < |s.value| ==> !IsSpace(s.value[r.value])
  {
    if s.None? { return None; }
    var i := 0;
    while i < |s.value| && IsSpace(s.value[i])
      invariant 0 <= i <= |s.value|
      invariant forall j :: 0 <= j < i ==> IsSpace(s.value[j])
    {
      i := i + 1;
    }
    r := Some(i);
  }

  /** Index of the first non-whitespace character of `s`, `|s|` if there is none. */
  function FirstNonSpace(s: string): (k: nat)
    ensures k <= |s|
    ensures forall j :: 0 <= j < k ==> IsSpace(s[j])
    ensures k < |s| ==> !IsSpace(s[k])
  {
    if s == [] || !IsSpace(s[0]) then 0 else FirstNonSpace(s[1..]) + 1
  }

  /** `s` without leading and trailing whitespace (`skipWhitespace` then `trimTrailingWhitespace`). */
  function Trimmed(s: string): (t: string)
    ensures |t| <= |s|
    ensures t == [] <==> forall j :: 0 <= j < |s| ==> IsSpace(s[j])
    ensures t != [] ==> !IsSpace(t[0]) && !IsSpace(t[|t| - 1])
  {
    var u := s[FirstNonSpace(s)..];
    u[..LastNonSpace(u) + 1]
  }

  ///////////////////////////////////////////////////////////////////////////

  /** The character at index `i` of a C string, reading its terminator at `|s|`. */
  function At(s: string, i: nat): char {
    if i < |s| then s[i] else '\0'
  }

  /** `ispathsep`; `win32` selects the Windows build, where the backslash is a separator too. */
  predicate IsPathSep(c: char, win32: bool) {
    c == '/' || (win32 && c == '\\')
  }

  /** `isAbsPath` (never reads past the terminator, thanks to short-circuit evaluation). */
  function IsAbsPath(c: Option<string>, win32: bool): (r: bool)
    ensures c.None? ==> !r
    ensures c.Some? && !win32 ==> (r <==> |c.value| > 0 && c.value[0] == '/')
    ensures c.Some? && win32 ==>
      (r <==> ((|c.value| >= 3 && IsAlpha(c.value[0]) && c.value[1] == ':' && IsPathSep(c.value[2], true))
               || (|c.value| >= 2 && IsPathSep(c.value[0], true) && IsPathSep(c.value[1], true))))
  {
    c.Some? &&
    if win32 then
      (IsAlpha(At(c.value, 0)) && At(c.value, 1) == ':' && IsPathSep(At(c.value, 2), true))
      || (IsPathSep(At(c.value, 0), true) && IsPathSep(At(c.value, 1), true))
    else IsPathSep(At(c.value, 0), false)
  }

  /**
   * `pathRemoveBaseName`: cuts the path held in `path` at its base-name index
   * and then also drops the separators right before it. `baseIndex` is the
   * result of `pathBaseNameIndex` (its body is not part of this model).
   */
  method PathRemoveBaseName(path: array?<char>, baseIndex: nat, win32: bool) returns (ghost cut: nat)
    requires path != null ==> '\0' in path[..] && baseIndex <= CLen(path[..])
    modifies path
    ensures path == null ==> cut == 0
    ensures path != null ==> && cut <= baseIndex
                             && (forall j :: cut <= j < baseIndex ==> IsPathSep(old(path[j]), win32))
                             && (cut == 0 || !IsPathSep(old(path[cut - 1]), win32))
                             && path[..] == old(path[..])[cut := '\0']
                             && '\0' in path[..]
                             && CStr(path[..]) == CStr(old(path[..]))[..cut]
  {
    if path == null { return 0; }
    var idx := baseIndex;
    while idx > 0 && IsPathSep(path[idx - 1], win32)
      invariant 0 <= idx <= baseIndex
      invariant forall j :: idx <= j < baseIndex ==> IsPathSep(path[j], win32)
    {
      idx := idx - 1;
    }
    CutAt(path[..], idx);
    path[idx] := '\0';
    cut := idx;
  }

  ///////////////////////////////////////////////////////////////////////////

  /** The byte a `char` is stored in. */
  function CharByte(c: char): bv8
    requires c as int < 256
  {
    c as int as bv8
  }

  /** `uint32_t(c)` for a C `char` (signed on the targeted compilers): bytes 128..255 sign-extend. */
  function WidenChar(c: char): bv32
    requires c as int < 256
  {
    var b := CharByte(c);
    if b < 128 then b as bv32 else (b as bv32) | 0xFFFF_FF00
  }

  /** The `i`-th byte (little-endian) of a 32-bit code. */
  function ByteOf(code: bv32, i: nat): bv8
    requires i < 4
  {
    (if i == 0 then code & 0xFF else if i == 1 then (code >> 8) & 0xFF
     else if i == 2 then (code >> 16) & 0xFF else (code >> 24) & 0xFF) as bv8
  }

  /** `makeExtCode`: up to four lower-cased characters packed little-endian. */
  function MakeExtCode(ext: Option<string>): (code: bv32)
    requires ext.Some? ==> forall i :: 0 <= i < |ext.value| ==> ext.value[i] as int < 256
    ensures ext.None? || |ext.value| == 0 ==> code == 0
  {
    if ext.None? || At(ext.value, 0) == '\0' then 0
    else
      var e := ext.value;
      WidenChar(ToLower(e[0])) | (if At(e, 1) == '\0' then 0 else
      ((WidenChar(ToLower(e[1])) << 8) | (if At(e, 2) == '\0' then 0 else
      ((WidenChar(ToLower(e[2])) << 16) | (if At(e, 3) == '\0' then 0 else
      (WidenChar(ToLower(e[3])) << 24))))))
  }

  /** Four bytes packed little-endian into a 32-bit code. */
  function Pack(b0: bv8, b1: bv8, b2: bv8, b3: bv8): bv32 {
    (b0 as bv32) | ((b1 as bv32) << 8) | ((b2 as bv32) << 16) | ((b3 as bv32) << 24)
  }

  lemma PackBytes(b0: bv8, b1: bv8, b2: bv8, b3: bv8)
    ensures ByteOf(Pack(b0, b1, b2, b3), 0) == b0
    ensures ByteOf(Pack(b0, b1, b2, b3), 1) == b1
    ensures ByteOf(Pack(b0, b1, b2, b3), 2) == b2
    ensures ByteOf(Pack(b0, b1, b2, b3), 3) == b3
  {
  }

  /** A non-empty-character extension whose lower-cased bytes are all 7-bit (no sign extension). */
  predicate SevenBitExt(ext: string) {
    forall i :: 0 <= i < |ext| ==>
      ext[i] != '\0' && ext[i] as int < 256 && CharByte(ToLower(ext[i])) < 128
  }

  /** The byte an extension contributes at position `i` (0 past its end). */
  function LoweredByte(ext: string, i: nat): bv8
    requires SevenBitExt(ext)
  {
    if i < |ext| then CharByte(ToLower(ext[i])) else 0
  }

  /** A 7-bit lower-cased character widens without sign extension. */
  lemma WidenLowered(ext: string, i: nat)
    requires SevenBitExt(ext) && i < |ext|
    ensures At(ext, i) != '\0' && WidenChar(ToLower(ext[i])) == LoweredByte(ext, i) as bv32
  {
  }

  /** Unpacking an extension code gives back the first four lower-cased characters, then zeros. */
  lemma ExtCodeBytes(ext: string)
    requires SevenBitExt(ext)
    ensures forall i :: 0 <= i < 4 ==> ByteOf(MakeExtCode(Some(ext)), i) == LoweredByte(ext, i)
  {
    var b0, b1, b2, b3 := LoweredByte(ext, 0), LoweredByte(ext, 1), LoweredByte(ext, 2), LoweredByte(ext, 3);
    var code := MakeExtCode(Some(ext));
    for i := 0 to if |ext| < 4 then |ext| else 4
      invariant forall j :: 0 <= j < i ==> At(ext, j) != '\0' && WidenChar(ToLower(ext[j])) == LoweredByte(ext, j) as bv32
    {
      WidenLowered(ext, i);
    }
    if |ext| == 0 {
      assert code == Pack(0, 0, 0, 0);
    } else if |ext| == 1 {
      assert code == Pack(b0, 0, 0, 0);
    } else if |ext| == 2 {
      assert code == Pack(b0, b1, 0, 0);
    } else if |ext| == 3 {
      assert code == Pack(b0, b1, b2, 0);
    } else {
      assert code == Pack(b0, b1, b2, b3);
    }
    PackBytes(b0, b1, b2, b3);
  }
}
