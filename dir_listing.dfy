/**
 * What src/vfs.cpp and src/dirlist.cpp share: the order of directory
 * listings (directories before files, then names without extension
 * compared byte by byte after `tolower`, a name's end counting as 0) and
 * the once-a-second refresh of a cached listing. `std::sort` is modelled
 * by an insertion sort.
 *
 * Names are byte strings, one `char` per byte. `char` is signed on the
 * targets, so `tolower(*a) < tolower(*b)` compares a byte of 0x80 or more
 * as a negative number: such a byte sorts before the end of a name
 * ("ab\xC3\xA9" before "ab") and before every ASCII character.
 */
module DirListing {
  import opened StringUtil

  /** What `operator<` looks at in an item: its kind and its name without extension. */
  datatype Key = Key(isDir: bool, name: string)

  /**
   * The `int` that `tolower(*a)` yields for a signed `char`: bytes 0x80 to
   * 0xFF read as -128 to -1, which the "C" locale's `tolower` returns
   * unchanged.
   */
  function SignedLower(c: char): int {
    var l := ToLower(c) as int;
    if 0x80 <= l < 0x100 then l - 0x100 else l
  }

  /**
   * The name comparison loop: skip characters while neither is the
   * terminator and both are equal after `tolower`, then compare the two
   * characters reached as signed values (the terminator counts as 0).
   */
  function NameLess(a: string, b: string): bool
  {
    var ca, cb := At(a, 0), At(b, 0);
    if ca != '\0' && cb != '\0' && ToLower(ca) == ToLower(cb) then NameLess(a[1..], b[1..])
    else SignedLower(ca) < SignedLower(cb)
  }

  /** `Item::operator<`. */
  predicate Less(x: Key, y: Key) {
    if x.isDir != y.isDir then x.isDir else NameLess(x.name, y.name)
  }

  /** Neither item sorts before the other. */
  predicate Equiv(x: Key, y: Key) {
    !Less(x, y) && !Less(y, x)
  }

  /** `Item::operator<` as the loop over the two C strings. */
  method Precedes(x: Key, y: Key) returns (r: bool)
    ensures r == Less(x, y)
    ensures x.isDir != y.isDir ==> r == x.isDir
  {
    if x.isDir != y.isDir {
      return x.isDir;
    }
    var a, b := x.name, y.name;
    var i := 0;
    while At(a, i) != '\0' && At(b, i) != '\0' && ToLower(At(a, i)) == ToLower(At(b, i))
      invariant i <= |a| && i <= |b|
      invariant NameLess(a, b) == NameLess(a[i..], b[i..])
      decreases |a| - i
    {
      assert a[i..][1..] == a[i + 1..] && b[i..][1..] == b[i + 1..];
      i := i + 1;
    }
    r := SignedLower(At(a, i)) < SignedLower(At(b, i));
  }

  /** Only the terminator lowers to 0, and characters equal after `tolower` have equal signed values. */
  lemma LowerNul(c: char)
    ensures ToLower(c) == '\0' <==> c == '\0'
    ensures SignedLower(c) == 0 <==> c == '\0'
    ensures forall d :: SignedLower(c) == SignedLower(d) <==> ToLower(c) == ToLower(d)
  {
  }

  /** No name sorts before itself. */
  lemma {:induction false} NameIrreflexive(a: string)
    ensures !NameLess(a, a)
  {
    if At(a, 0) != '\0' {
      NameIrreflexive(a[1..]);
    }
  }

  lemma {:induction false} NameAsymmetric(a: string, b: string)
    requires NameLess(a, b)
    ensures !NameLess(b, a)
  {
    var ca, cb := At(a, 0), At(b, 0);
    if ca != '\0' && cb != '\0' && ToLower(ca) == ToLower(cb) {
      NameAsymmetric(a[1..], b[1..]);
    }
  }

  lemma {:induction false} NameTransitive(a: string, b: string, c: string)
    requires NameLess(a, b) && NameLess(b, c)
    ensures NameLess(a, c)
  {
    var ca, cb, cc := At(a, 0), At(b, 0), At(c, 0);
    LowerNul(ca); LowerNul(cb); LowerNul(cc);
    if ca != '\0' && cb != '\0' && ToLower(ca) == ToLower(cb) && cc != '\0' && ToLower(cb) == ToLower(cc) {
      NameTransitive(a[1..], b[1..], c[1..]);
    }
  }

  /**
   * Whatever `b` is, a name before `c` is before `b` or `b` is before `c`:
   * together with irreflexivity and transitivity this makes the order a
   * strict weak order, the requirement of `std::sort`.
   */
  lemma {:induction false} NameSplit(a: string, b: string, c: string)
    requires NameLess(a, c)
    ensures NameLess(a, b) || NameLess(b, c)
  {
    var ca, cb, cc := At(a, 0), At(b, 0), At(c, 0);
    LowerNul(ca); LowerNul(cb); LowerNul(cc);
    if ca != '\0' && cc != '\0' && ToLower(ca) == ToLower(cc) && ToLower(cb) == ToLower(ca) {
      NameSplit(a[1..], b[1..], c[1..]);
    }
  }

  /** For names without a NUL, no order between them means equal after `tolower`. */
  lemma {:induction false} NameEquivLower(a: string, b: string)
    requires '\0' !in a && '\0' !in b
    ensures !NameLess(a, b) && !NameLess(b, a) <==> LowerString(a) == LowerString(b)
  {
    var ca, cb := At(a, 0), At(b, 0);
    LowerNul(ca); LowerNul(cb);
    if a == [] || b == [] {
      if a != [] { assert LowerString(a)[0] == ToLower(a[0]); }
      if b != [] { assert LowerString(b)[0] == ToLower(b[0]); }
    } else if ToLower(ca) == ToLower(cb) {
      NameEquivLower(a[1..], b[1..]);
      assert NameLess(a, b) == NameLess(a[1..], b[1..]);
      assert NameLess(b, a) == NameLess(b[1..], a[1..]);
      var la, lb := LowerString(a), LowerString(b);
      assert la == [ToLower(a[0])] + LowerString(a[1..]);
      assert lb == [ToLower(b[0])] + LowerString(b[1..]);
      assert la == lb <==> LowerString(a[1..]) == LowerString(b[1..]) by {
        if la == lb { assert la[1..] == lb[1..]; }
      }
    } else {
      assert LowerString(a)[0] != LowerString(b)[0];
    }
  }

  /**
   * A name sorts after its proper prefixes unless the byte that follows
   * the prefix is 0x80 or more, which puts the longer name first.
   */
  lemma {:induction false} PrefixFirst(a: string, b: string)
    requires '\0' !in b && |a| < |b| && a == b[..|a|]
    ensures NameLess(a, b) <==> !(0x80 <= b[|a|] as int < 0x100)
    ensures NameLess(b, a) <==> 0x80 <= b[|a|] as int < 0x100
  {
    LowerNul(At(b, 0));
    if a != [] {
      assert a[1..] == b[1..][..|a| - 1];
      PrefixFirst(a[1..], b[1..]);
    }
  }

  /** "ab\xC3\xA9" ("abé" in UTF-8) lists before "ab". */
  lemma HighByteBeforeEnd()
    ensures NameLess("ab\U{C3}\U{A9}", "ab") && !NameLess("ab", "ab\U{C3}\U{A9}")
  {
    PrefixFirst("ab", "ab\U{C3}\U{A9}");
  }

  lemma Irreflexive(x: Key)
    ensures !Less(x, x)
  {
    NameIrreflexive(x.name);
  }

  lemma Asymmetric(x: Key, y: Key)
    requires Less(x, y)
    ensures !Less(y, x)
  {
    if x.isDir == y.isDir {
      NameAsymmetric(x.name, y.name);
    }
  }

  lemma Transitive(x: Key, y: Key, z: Key)
    requires Less(x, y) && Less(y, z)
    ensures Less(x, z)
  {
    if x.isDir == y.isDir == z.isDir {
      NameTransitive(x.name, y.name, z.name);
    }
  }

  lemma Split(x: Key, y: Key, z: Key)
    requires Less(x, z)
    ensures Less(x, y) || Less(y, z)
  {
    if x.isDir == y.isDir == z.isDir {
      NameSplit(x.name, y.name, z.name);
    }
  }

  /** Equivalent keys are interchangeable on either side of the order. */
  lemma EquivCongruent(x: Key, y: Key, z: Key)
    requires Equiv(y, z)
    ensures Less(x, y) <==> Less(x, z)
    ensures Less(y, x) <==> Less(z, x)
  {
    if Less(x, y) { Split(x, z, y); }
    if Less(x, z) { Split(x, y, z); }
    if Less(y, x) { Split(y, z, x); }
    if Less(z, x) { Split(z, y, x); }
  }

  /** Equivalent items (for NUL-free names) are of the same kind and have the same name up to case. */
  lemma EquivMeans(x: Key, y: Key)
    requires '\0' !in x.name && '\0' !in y.name
    ensures Equiv(x, y) <==> x.isDir == y.isDir && LowerString(x.name) == LowerString(y.name)
  {
    NameEquivLower(x.name, y.name);
  }

  ///////////////////////////////////////////////////////////////////////////

  /** No later element sorts before an earlier one. */
  ghost predicate SortedBy<T>(xs: seq<T>, key: T -> Key) {
    forall i, j :: 0 <= i < j < |xs| ==> !Less(key(xs[j]), key(xs[i]))
  }

  /** Nothing in a sorted list sorts before its head. */
  lemma HeadLeast<T>(xs: seq<T>, key: T -> Key)
    requires SortedBy(xs, key) && xs != []
    ensures forall e :: e in xs ==> !Less(key(e), key(xs[0]))
  {
    forall e | e in xs
      ensures !Less(key(e), key(xs[0]))
    {
      var k :| 0 <= k < |xs| && xs[k] == e;
      if k == 0 { Irreflexive(key(e)); }
    }
  }

  /** A sorted list with a least element in front stays sorted. */
  lemma ConsSorted<T>(x: T, xs: seq<T>, key: T -> Key)
    requires SortedBy(xs, key)
    requires forall e :: e in xs ==> !Less(key(e), key(x))
    ensures SortedBy([x] + xs, key)
  {
    var r := [x] + xs;
    forall i, j | 0 <= i < j < |r|
      ensures !Less(key(r[j]), key(r[i]))
    {
      if i == 0 {
        assert r[j] in xs;
      } else {
        assert r[i] == xs[i - 1] && r[j] == xs[j - 1];
      }
    }
  }

  /** One step of insertion sort: `x` goes before the first element it sorts before. */
  function Insert<T>(x: T, xs: seq<T>, key: T -> Key): (r: seq<T>)
    ensures multiset(r) == multiset(xs) + multiset{x}
  {
    if xs == [] then [x]
    else if Less(key(x), key(xs[0])) then [x] + xs
    else
      assert xs == [xs[0]] + xs[1..];
      [xs[0]] + Insert(x, xs[1..], key)
  }

  lemma {:induction false} InsertSorted<T>(x: T, xs: seq<T>, key: T -> Key)
    requires SortedBy(xs, key)
    ensures SortedBy(Insert(x, xs, key), key)
  {
    if xs == [] {
    } else if Less(key(x), key(xs[0])) {
      HeadLeast(xs, key);
      forall e | e in xs
        ensures !Less(key(e), key(x))
      {
        if Less(key(e), key(x)) { Transitive(key(e), key(x), key(xs[0])); }
      }
      ConsSorted(x, xs, key);
    } else {
      var t := xs[1..];
      assert SortedBy(t, key) by {
        forall i, j | 0 <= i < j < |t|
          ensures !Less(key(t[j]), key(t[i]))
        {
          assert t[i] == xs[i + 1] && t[j] == xs[j + 1];
        }
      }
      InsertSorted(x, t, key);
      HeadLeast(xs, key);
      forall e | e in Insert(x, t, key)
        ensures !Less(key(e), key(xs[0]))
      {
        assert e in multiset(Insert(x, t, key));
        assert e == x || e in t;
      }
      ConsSorted(xs[0], Insert(x, t, key), key);
    }
  }

  /** The listing order `std::sort` establishes, by insertion. */
  function SortBy<T>(xs: seq<T>, key: T -> Key): (r: seq<T>)
    ensures multiset(r) == multiset(xs)
  {
    if xs == [] then []
    else
      assert xs == [xs[0]] + xs[1..];
      Insert(xs[0], SortBy(xs[1..], key), key)
  }

  /** Sorting yields a sorted permutation. */
  lemma {:induction false} SortBySorted<T>(xs: seq<T>, key: T -> Key)
    ensures SortedBy(SortBy(xs, key), key)
    ensures multiset(SortBy(xs, key)) == multiset(xs)
  {
    if xs != [] {
      SortBySorted(xs[1..], key);
      InsertSorted(xs[0], SortBy(xs[1..], key), key);
    }
  }

  ///////////////////////////////////////////////////////////////////////////

  /** A cache entry: the merged items and the clock reading after which they are rescanned. */
  datatype CachedList<T> = CachedList(items: seq<T>, nextUpdate: int)

  /** `steady_clock` ticks, modelled in nanoseconds; a new cache entry holds the clock's epoch, 0. */
  const OneSecond: int := 1_000_000_000

  /** The entry `dirCache[dir]` finds, inserting an empty one. */
  function CacheEntry<T>(cache: map<string, CachedList<T>>, dir: string): CachedList<T> {
    if dir in cache then cache[dir] else CachedList([], 0)
  }

  /**
   * A call to `getCachedDirList` at clock reading `now`, reading `later`
   * after a rescan, with `scanned` the listing a rescan would produce.
   */
  function CacheUpdate<T>(e: CachedList<T>, now: int, later: int, scanned: seq<T>): (r: CachedList<T>)
    ensures now > e.nextUpdate ==> r.items == scanned && r.nextUpdate == later + OneSecond
    ensures now <= e.nextUpdate ==> r.items == e.items && r.nextUpdate == now + OneSecond
  {
    if now > e.nextUpdate then CachedList(scanned, later + OneSecond) else CachedList(e.items, now + OneSecond)
  }

  /** Within a second of a call, another call returns the same items without a rescan. */
  lemma NoRescanWithinSecond<T>(e: CachedList<T>, now: int, later: int, scanned: seq<T>, now2: int, later2: int, scanned2: seq<T>)
    requires now <= later && now2 <= now + OneSecond
    ensures CacheUpdate(CacheUpdate(e, now, later, scanned), now2, later2, scanned2).items == CacheUpdate(e, now, later, scanned).items
  {
  }
}
