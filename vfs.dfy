/**
 * The virtual file system of src/vfs.cpp: a list of root directories whose
 * listings of the same relative directory are merged into one, sorted
 * directory list, and a cache of those merged lists that is refreshed at
 * most once per second.
 *
 * The file system, `pathJoin`, `pathExtStartIndex` and the file fingerprint
 * comparison are not part of this model; they are the parameters in `Host`.
 */
module Vfs {
  import opened StringUtil
  import opened DirListing

  /** A listed file or directory. */
  datatype Item = Item(nameNoExt: string, relPath: string, fullPath: string, isDir: bool)

  /** What `operator<` compares. */
  function KeyOf(x: Item): Key {
    Key(x.isDir, x.nameNoExt)
  }

  /** An entry of a directory as `readdir` yields it, with the result of `currentItemIsDir`. */
  datatype Entry = Entry(name: string, isDir: bool)

  /**
   * The host calls: `pathJoin` (None standing for a null pointer, as
   * argument or result), `pathExtStartIndex`, the entries of the directory
   * at a path in `readdir` order (none for a null path), and `newer(a, b)`
   * for "the fingerprint of file `a` is newer than that of file `b`".
   */
  datatype Host = Host(
    join: (Option<string>, Option<string>) -> Option<string>,
    extStart: string -> nat,
    entries: Option<string> -> seq<Entry>,
    newer: (string, string) -> bool)

  function ValueOr(s: Option<string>): string {
    if s.Some? then s.value else []
  }

  /**
   * `DirList::Item::Item`: the relative path joins the relative directory
   * and the name, the full path joins the root and the relative path (a
   * null join leaves a path empty), and the name loses its extension.
   * `pathExtStartIndex` never passes the end of the name, so clamping its
   * result at the length changes nothing.
   */
  function NewItem(host: Host, rootDir: string, relDir: string, name: string, isDir: bool): (x: Item)
    ensures x.isDir == isDir
    ensures |x.nameNoExt| <= |name| && x.nameNoExt == name[..|x.nameNoExt|]
    ensures host.extStart(name) <= |name| ==> |x.nameNoExt| == host.extStart(name)
  {
    var rp := host.join(Some(relDir), Some(name));
    var fp := host.join(Some(rootDir), rp);
    var dot := if host.extStart(name) <= |name| then host.extStart(name) else |name|;
    Item(name[..dot], ValueOr(rp), ValueOr(fp), isDir)
  }

  /** `nextNonDot` skips the entries whose name starts with a dot. */
  predicate Hidden(name: string) {
    |name| > 0 && name[0] == '.'
  }

  /** The items made from the visible entries of a directory, in `readdir` order. */
  function Listing(host: Host, root: string, relRoot: string, es: seq<Entry>): seq<Item>
  {
    if es == [] then []
    else
      var e := es[|es| - 1];
      Listing(host, root, relRoot, es[..|es| - 1])
        + (if Hidden(e.name) then [] else [NewItem(host, root, relRoot, e.name, e.isDir)])
  }

  /** Every visible entry is listed, and everything listed comes from a visible entry. */
  lemma {:induction false} ListingExact(host: Host, root: string, relRoot: string, es: seq<Entry>)
    ensures forall e :: e in es && !Hidden(e.name) ==> NewItem(host, root, relRoot, e.name, e.isDir) in Listing(host, root, relRoot, es)
    ensures forall x :: x in Listing(host, root, relRoot, es) ==>
      exists e :: e in es && !Hidden(e.name) && x == NewItem(host, root, relRoot, e.name, e.isDir)
  {
    if es != [] {
      var init := es[..|es| - 1];
      ListingExact(host, root, relRoot, init);
      assert es == init + [es[|es| - 1]];
    }
  }

  /** The scan of one root: the `while (d.nextNonDot())` loop of `getDirList`. */
  method ScanRoot(host: Host, root: string, relRoot: string) returns (items: seq<Item>)
    ensures items == Listing(host, root, relRoot, host.entries(host.join(Some(root), Some(relRoot))))
  {
    var es := host.entries(host.join(Some(root), Some(relRoot)));
    items := [];
    var k := 0;
    while k < |es|
      invariant k <= |es|
      invariant items == Listing(host, root, relRoot, es[..k])
    {
      assert es[..k + 1][..k] == es[..k];
      if !Hidden(es[k].name) {
        items := items + [NewItem(host, root, relRoot, es[k].name, es[k].isDir)];
      }
      k := k + 1;
    }
    assert es[..k] == es;
  }

  ///////////////////////////////////////////////////////////////////////////

  /**
   * `DirList::merge` on values: take the lesser head; of two equivalent
   * heads keep the destination's, unless the source's is a file newer
   * than it, which then takes its place.
   */
  function MergeSpec(d: seq<Item>, s: seq<Item>, newer: (string, string) -> bool): seq<Item>
    decreases |d| + |s|
  {
    if s == [] then d
    else if d == [] then s
    else if Less(KeyOf(s[0]), KeyOf(d[0])) then [s[0]] + MergeSpec(d, s[1..], newer)
    else if Less(KeyOf(d[0]), KeyOf(s[0])) then [d[0]] + MergeSpec(d[1..], s, newer)
    else
      var kept := if !s[0].isDir && newer(s[0].fullPath, d[0].fullPath) then s[0] else d[0];
      [kept] + MergeSpec(d[1..], s[1..], newer)
  }

  /** Everything merged comes from one of the two lists. */
  lemma {:induction false} MergeFrom(d: seq<Item>, s: seq<Item>, newer: (string, string) -> bool)
    ensures forall x :: x in MergeSpec(d, s, newer) ==> x in d || x in s
    decreases |d| + |s|
  {
    if s != [] && d != [] {
      if Less(KeyOf(s[0]), KeyOf(d[0])) {
        MergeFrom(d, s[1..], newer);
      } else if Less(KeyOf(d[0]), KeyOf(s[0])) {
        MergeFrom(d[1..], s, newer);
      } else {
        MergeFrom(d[1..], s[1..], newer);
      }
    }
  }

  /** `y` took the place of the destination item `x`. */
  ghost predicate ReplacedBy(x: Item, y: Item, newer: (string, string) -> bool) {
    !x.isDir && !y.isDir && Equiv(KeyOf(x), KeyOf(y)) && newer(y.fullPath, x.fullPath)
  }

  /**
   * Every destination item survives, unless it is a file replaced by an
   * equivalent, newer source file; directories are never replaced.
   */
  lemma {:induction false} MergeKeepsDest(d: seq<Item>, s: seq<Item>, newer: (string, string) -> bool)
    ensures forall x :: x in d ==>
      (x in MergeSpec(d, s, newer) || exists y :: y in s && y in MergeSpec(d, s, newer) && ReplacedBy(x, y, newer))
    decreases |d| + |s|
  {
    var out := MergeSpec(d, s, newer);
    if s != [] && d != [] {
      if Less(KeyOf(s[0]), KeyOf(d[0])) {
        MergeKeepsDest(d, s[1..], newer);
        var rest := MergeSpec(d, s[1..], newer);
        forall x | x in d
          ensures x in out || exists y :: y in s && y in out && ReplacedBy(x, y, newer)
        {
          if x !in rest {
            var y :| y in s[1..] && y in rest && ReplacedBy(x, y, newer);
            assert y in s && y in out;
          }
        }
      } else if Less(KeyOf(d[0]), KeyOf(s[0])) {
        MergeKeepsDest(d[1..], s, newer);
        var rest := MergeSpec(d[1..], s, newer);
        forall x | x in d
          ensures x in out || exists y :: y in s && y in out && ReplacedBy(x, y, newer)
        {
          if x != d[0] && x !in rest {
            assert x in d[1..];
            var y :| y in s && y in rest && ReplacedBy(x, y, newer);
            assert y in out;
          }
        }
      } else {
        MergeKeepsDest(d[1..], s[1..], newer);
        var rest := MergeSpec(d[1..], s[1..], newer);
        forall x | x in d
          ensures x in out || exists y :: y in s && y in out && ReplacedBy(x, y, newer)
        {
          if x == d[0] {
            if !s[0].isDir && newer(s[0].fullPath, d[0].fullPath) {
              assert s[0] in out;
              assert ReplacedBy(x, s[0], newer);
            }
          } else if x !in rest {
            assert x in d[1..];
            var y :| y in s[1..] && y in rest && ReplacedBy(x, y, newer);
            assert y in s && y in out;
          }
        }
      }
    }
  }

  /** `x` stayed in place of the equivalent source item `y`. */
  ghost predicate KeptOver(x: Item, y: Item, newer: (string, string) -> bool) {
    Equiv(KeyOf(x), KeyOf(y)) && (y.isDir || !newer(y.fullPath, x.fullPath))
  }

  /**
   * Every source item arrives, unless an equivalent destination item stays
   * in its place (a directory, or a file the source item is not newer than).
   */
  lemma {:induction false} MergeKeepsSource(d: seq<Item>, s: seq<Item>, newer: (string, string) -> bool)
    ensures forall y :: y in s ==>
      (y in MergeSpec(d, s, newer) || exists x :: x in d && x in MergeSpec(d, s, newer) && KeptOver(x, y, newer))
    decreases |d| + |s|
  {
    var out := MergeSpec(d, s, newer);
    if s != [] && d != [] {
      if Less(KeyOf(s[0]), KeyOf(d[0])) {
        MergeKeepsSource(d, s[1..], newer);
        var rest := MergeSpec(d, s[1..], newer);
        forall y | y in s
          ensures y in out || exists x :: x in d && x in out && KeptOver(x, y, newer)
        {
          if y != s[0] && y !in rest {
            assert y in s[1..];
            var x :| x in d && x in rest && KeptOver(x, y, newer);
            assert x in out;
          }
        }
      } else if Less(KeyOf(d[0]), KeyOf(s[0])) {
        MergeKeepsSource(d[1..], s, newer);
        var rest := MergeSpec(d[1..], s, newer);
        forall y | y in s
          ensures y in out || exists x :: x in d && x in out && KeptOver(x, y, newer)
        {
          if y !in rest {
            var x :| x in d[1..] && x in rest && KeptOver(x, y, newer);
            assert x in d && x in out;
          }
        }
      } else {
        MergeKeepsSource(d[1..], s[1..], newer);
        var rest := MergeSpec(d[1..], s[1..], newer);
        forall y | y in s
          ensures y in out || exists x :: x in d && x in out && KeptOver(x, y, newer)
        {
          if y == s[0] {
            if !(!s[0].isDir && newer(s[0].fullPath, d[0].fullPath)) {
              assert d[0] in out;
              assert KeptOver(d[0], y, newer);
            }
          } else if y !in rest {
            assert y in s[1..];
            var x :| x in d[1..] && x in rest && KeptOver(x, y, newer);
            assert x in d && x in out;
          }
        }
      }
    }
  }

  /** The tail of a sorted list is sorted. */
  lemma TailSorted<T>(xs: seq<T>, key: T -> Key)
    requires SortedBy(xs, key) && xs != []
    ensures SortedBy(xs[1..], key)
  {
    var t := xs[1..];
    forall i, j | 0 <= i < j < |t|
      ensures !Less(key(t[j]), key(t[i]))
    {
      assert t[i] == xs[i + 1] && t[j] == xs[j + 1];
    }
  }

  /** Merging two sorted lists gives a sorted list. */
  lemma {:induction false} MergeSorted(d: seq<Item>, s: seq<Item>, newer: (string, string) -> bool)
    requires SortedBy(d, KeyOf) && SortedBy(s, KeyOf)
    ensures SortedBy(MergeSpec(d, s, newer), KeyOf)
    decreases |d| + |s|
  {
    if s != [] && d != [] {
      HeadLeast(d, KeyOf);
      HeadLeast(s, KeyOf);
      var s0, d0 := s[0], d[0];
      if Less(KeyOf(s0), KeyOf(d0)) {
        TailSorted(s, KeyOf);
        MergeSorted(d, s[1..], newer);
        MergeFrom(d, s[1..], newer);
        forall e | e in MergeSpec(d, s[1..], newer)
          ensures !Less(KeyOf(e), KeyOf(s0))
        {
          if e in d && Less(KeyOf(e), KeyOf(s0)) { Transitive(KeyOf(e), KeyOf(s0), KeyOf(d0)); }
        }
        ConsSorted(s0, MergeSpec(d, s[1..], newer), KeyOf);
      } else if Less(KeyOf(d0), KeyOf(s0)) {
        TailSorted(d, KeyOf);
        MergeSorted(d[1..], s, newer);
        MergeFrom(d[1..], s, newer);
        forall e | e in MergeSpec(d[1..], s, newer)
          ensures !Less(KeyOf(e), KeyOf(d0))
        {
          if e in s && Less(KeyOf(e), KeyOf(d0)) { Transitive(KeyOf(e), KeyOf(d0), KeyOf(s0)); }
        }
        ConsSorted(d0, MergeSpec(d[1..], s, newer), KeyOf);
      } else {
        TailSorted(d, KeyOf);
        TailSorted(s, KeyOf);
        MergeSorted(d[1..], s[1..], newer);
        MergeFrom(d[1..], s[1..], newer);
        var h := if !s0.isDir && newer(s0.fullPath, d0.fullPath) then s0 else d0;
        forall e | e in MergeSpec(d[1..], s[1..], newer)
          ensures !Less(KeyOf(e), KeyOf(h))
        {
          EquivCongruent(KeyOf(e), KeyOf(d0), KeyOf(s0));
        }
        ConsSorted(h, MergeSpec(d[1..], s[1..], newer), KeyOf);
      }
    }
  }

  /** A directory list: the items of one relative directory over all roots. */
  class DirList {
    var items: seq<Item>

    constructor ()
      ensures items == []
    {
      items := [];
    }

    /**
     * `merge`: merge the sorted `src` into this list in place, inserting
     * and overwriting at the destination position; `src` ends up empty.
     */
    method Merge(src: DirList, newer: (string, string) -> bool)
      requires src != this
      modifies this, src
      ensures items == MergeSpec(old(items), old(src.items), newer)
      ensures src.items == []
    {
      if src.items == [] {
        return;
      }
      if items == [] {
        items := src.items;
        src.items := [];
        return;
      }
      ghost var d0 := items;
      var d, s := items, src.items;
      var posD, posS := 0, 0;
      while posS < |s|
        invariant posD <= |d| && posS <= |s|
        invariant d[..posD] + MergeSpec(d[posD..], s[posS..], newer) == MergeSpec(d0, s, newer)
        decreases |s| - posS, |d| - posD
      {
        var x := s[posS];
        if posD == |d| || Less(KeyOf(x), KeyOf(d[posD])) {
          MergeInsert(d, posD, s, posS, newer);
          d := d[..posD] + [x] + d[posD..];
          posD, posS := posD + 1, posS + 1;
        } else if Less(KeyOf(d[posD]), KeyOf(x)) {
          MergeSkip(d, posD, s, posS, newer);
          posD := posD + 1;
        } else {
          var replace := false;
          if !x.isDir {
            replace := newer(x.fullPath, d[posD].fullPath);
          }
          MergeMatch(d, posD, s, posS, newer, replace);
          if replace {
            d := d[posD := x];
          }
          posD, posS := posD + 1, posS + 1;
        }
      }
      assert d[..posD] + d[posD..] == d;
      items := d;
      src.items := [];
    }
  }

  lemma MergeInsert(d: seq<Item>, i: nat, s: seq<Item>, j: nat, newer: (string, string) -> bool)
    requires i <= |d| && j < |s|
    requires i == |d| || Less(KeyOf(s[j]), KeyOf(d[i]))
    ensures var d' := d[..i] + [s[j]] + d[i..];
      d'[..i + 1] + MergeSpec(d'[i + 1..], s[j + 1..], newer) == d[..i] + MergeSpec(d[i..], s[j..], newer)
  {
    var d' := d[..i] + [s[j]] + d[i..];
    assert d'[..i + 1] == d[..i] + [s[j]];
    assert d'[i + 1..] == d[i..];
    assert s[j..][1..] == s[j + 1..];
    if i == |d| {
      assert MergeSpec([], s[j..], newer) == s[j..] == [s[j]] + s[j + 1..];
      assert MergeSpec([], s[j + 1..], newer) == s[j + 1..];
    }
  }

  lemma MergeSkip(d: seq<Item>, i: nat, s: seq<Item>, j: nat, newer: (string, string) -> bool)
    requires i < |d| && j < |s|
    requires !Less(KeyOf(s[j]), KeyOf(d[i])) && Less(KeyOf(d[i]), KeyOf(s[j]))
    ensures d[..i + 1] + MergeSpec(d[i + 1..], s[j..], newer) == d[..i] + MergeSpec(d[i..], s[j..], newer)
  {
    assert d[..i + 1] == d[..i] + [d[i]];
    assert d[i..][1..] == d[i + 1..];
  }

  lemma MergeMatch(d: seq<Item>, i: nat, s: seq<Item>, j: nat, newer: (string, string) -> bool, replace: bool)
    requires i < |d| && j < |s|
    requires !Less(KeyOf(s[j]), KeyOf(d[i])) && !Less(KeyOf(d[i]), KeyOf(s[j]))
    requires replace == (!s[j].isDir && newer(s[j].fullPath, d[i].fullPath))
    ensures var d' := if replace then d[i := s[j]] else d;
      d'[..i + 1] + MergeSpec(d'[i + 1..], s[j + 1..], newer) == d[..i] + MergeSpec(d[i..], s[j..], newer)
  {
    var d' := if replace then d[i := s[j]] else d;
    assert d'[..i + 1] == d[..i] + [d'[i]];
    assert d'[i + 1..] == d[i + 1..] == d[i..][1..];
    assert s[j..][1..] == s[j + 1..];
  }

  ///////////////////////////////////////////////////////////////////////////

  /** One root's contribution: its listing of `relRoot`, sorted. */
  function RootList(host: Host, root: string, relRoot: string): seq<Item> {
    SortBy(Listing(host, root, relRoot, host.entries(host.join(Some(root), Some(relRoot)))), KeyOf)
  }

  /** `getDirList`: the sorted listings of the roots, merged in root order into an empty list. */
  function DirListOf(host: Host, roots: seq<string>, relRoot: string): seq<Item>
  {
    if roots == [] then []
    else
      var n := |roots| - 1;
      MergeSpec(DirListOf(host, roots[..n], relRoot), RootList(host, roots[n], relRoot), host.newer)
  }

  /** The merged list is sorted by `operator<`. */
  lemma {:induction false} DirListSorted(host: Host, roots: seq<string>, relRoot: string)
    ensures SortedBy(DirListOf(host, roots, relRoot), KeyOf)
  {
    if roots != [] {
      var n := |roots| - 1;
      DirListSorted(host, roots[..n], relRoot);
      var l := Listing(host, roots[n], relRoot, host.entries(host.join(Some(roots[n]), Some(relRoot))));
      SortBySorted(l, KeyOf);
      MergeSorted(DirListOf(host, roots[..n], relRoot), RootList(host, roots[n], relRoot), host.newer);
    }
  }

  /** Every item of the merged list is listed by one of the roots. */
  lemma {:induction false} DirListFromRoots(host: Host, roots: seq<string>, relRoot: string)
    ensures forall x :: x in DirListOf(host, roots, relRoot) ==>
      exists k :: 0 <= k < |roots| && x in Listing(host, roots[k], relRoot, host.entries(host.join(Some(roots[k]), Some(relRoot))))
  {
    if roots != [] {
      var n := |roots| - 1;
      var prev := DirListOf(host, roots[..n], relRoot);
      DirListFromRoots(host, roots[..n], relRoot);
      MergeFrom(prev, RootList(host, roots[n], relRoot), host.newer);
      var l := Listing(host, roots[n], relRoot, host.entries(host.join(Some(roots[n]), Some(relRoot))));
      forall x | x in DirListOf(host, roots, relRoot)
        ensures exists k :: 0 <= k < |roots| && x in Listing(host, roots[k], relRoot, host.entries(host.join(Some(roots[k]), Some(relRoot))))
      {
        if x in prev {
          var k :| 0 <= k < n && x in Listing(host, roots[..n][k], relRoot, host.entries(host.join(Some(roots[..n][k]), Some(relRoot))));
          assert roots[..n][k] == roots[k];
        } else {
          assert x in multiset(SortBy(l, KeyOf));
          assert x in l;
        }
      }
    }
  }

  /** The root at an index: the root for an index in range, else nothing (a null pointer). */
  function RootAt(roots: seq<string>, index: int): (r: Option<string>)
    ensures r.Some? <==> 0 <= index < |roots|
    ensures r.Some? ==> r.value == roots[index]
  {
    if 0 <= index < |roots| then Some(roots[index]) else None
  }

  /** Adding a root gives it the next index and leaves the others where they were. */
  lemma RootAtAppend(roots: seq<string>, root: string, index: int)
    ensures RootAt(roots + [root], index) == if index == |roots| then Some(root) else RootAt(roots, index)
  {
  }

  /** The module's state: the static `roots` and `dirCache`. */
  class FileSystem {
    var roots: seq<string>
    var dirCache: map<string, CachedList<Item>>

    constructor ()
      ensures roots == [] && dirCache == map[]
    {
      roots := [];
      dirCache := map[];
    }

    method AddRoot(root: string)
      modifies this
      ensures roots == old(roots) + [root] && dirCache == old(dirCache)
    {
      roots := roots + [root];
    }

    function GetRootCount(): (n: int)
      reads this
      ensures n == |roots|
    {
      |roots|
    }

    function GetRoot(index: int): (r: Option<string>)
      reads this
      ensures r.Some? <==> 0 <= index < |roots|
      ensures r.Some? ==> r.value == roots[index]
    {
      RootAt(roots, index)
    }

    /** `getDirList`: scan, sort and merge root by root. */
    method GetDirList(host: Host, relRoot: string) returns (items: seq<Item>)
      ensures items == DirListOf(host, roots, relRoot)
    {
      var result := new DirList();
      var k := 0;
      while k < |roots|
        invariant k <= |roots|
        invariant result.items == DirListOf(host, roots[..k], relRoot)
      {
        var newList := new DirList();
        var scanned := ScanRoot(host, roots[k], relRoot);
        newList.items := SortBy(scanned, KeyOf);
        assert roots[..k + 1][..k] == roots[..k];
        result.Merge(newList, host.newer);
        k := k + 1;
      }
      assert roots[..k] == roots;
      items := result.items;
    }

    /**
     * `getCachedDirList` at clock reading `now`, with `later` the reading
     * taken again after a rescan: rescan when `now` is past the entry's
     * next update, and in any case schedule the next one a second on.
     */
    method GetCachedDirList(host: Host, relRoot: string, now: int, later: int) returns (items: seq<Item>)
      modifies this
      ensures roots == old(roots)
      ensures dirCache == old(dirCache)[relRoot := CacheUpdate(CacheEntry(old(dirCache), relRoot), now, later, DirListOf(host, roots, relRoot))]
      ensures items == dirCache[relRoot].items
    {
      var e := CacheEntry(dirCache, relRoot);
      var list: CachedList;
      if now > e.nextUpdate {
        var dl := GetDirList(host, relRoot);
        list := CachedList(dl, later + OneSecond);
      } else {
        list := CachedList(e.items, now + OneSecond);
      }
      dirCache := dirCache[relRoot := list];
      items := list.items;
    }
  }
}
