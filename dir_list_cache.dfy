/**
 * The single-directory listing cache of src/dirlist.cpp: the sorted entries
 * of one directory, rescanned at most once a second. Unlike the virtual
 * file system there are no roots and no merging.
 *
 * The file system, `pathJoin` and `pathExtStartIndex` are the parameters in
 * `Host`.
 */
module DirListCache {
  import opened StringUtil
  import opened DirListing

  /** A listed file or directory. */
  datatype Item = Item(nameNoExt: string, fullPath: string, isDir: bool)

  function KeyOf(x: Item): Key {
    Key(x.isDir, x.nameNoExt)
  }

  /** An entry of a directory as `readdir` yields it, with the result of `currentItemIsDir`. */
  datatype Entry = Entry(name: string, isDir: bool)

  /**
   * The host calls: `pathJoin` (None standing for a null result),
   * `pathExtStartIndex`, and the entries of a directory in `readdir` order.
   */
  datatype Host = Host(
    join: (string, string) -> Option<string>,
    extStart: string -> nat,
    entries: string -> seq<Entry>)

  /**
   * `DirList::Item::Item`: the full path joins the directory and the name
   * (empty if the join fails) and the name loses its extension; the clamp
   * at the name's length never applies to a `pathExtStartIndex` result.
   */
  function NewItem(host: Host, baseDir: string, name: string, isDir: bool): (x: Item)
    ensures x.isDir == isDir
    ensures |x.nameNoExt| <= |name| && x.nameNoExt == name[..|x.nameNoExt|]
    ensures host.extStart(name) <= |name| ==> |x.nameNoExt| == host.extStart(name)
    ensures host.join(baseDir, name).Some? ==> x.fullPath == host.join(baseDir, name).value
    ensures host.join(baseDir, name).None? ==> x.fullPath == []
  {
    var fp := host.join(baseDir, name);
    var dot := if host.extStart(name) <= |name| then host.extStart(name) else |name|;
    Item(name[..dot], if fp.Some? then fp.value else [], isDir)
  }

  /** `nextNonDot` skips the entries whose name starts with a dot. */
  predicate Hidden(name: string) {
    |name| > 0 && name[0] == '.'
  }

  /** The items made from the visible entries, in `readdir` order. */
  function Listing(host: Host, dir: string, es: seq<Entry>): seq<Item>
  {
    if es == [] then []
    else
      var e := es[|es| - 1];
      Listing(host, dir, es[..|es| - 1]) + (if Hidden(e.name) then [] else [NewItem(host, dir, e.name, e.isDir)])
  }

  /** Every visible entry is listed, and everything listed comes from a visible entry. */
  lemma {:induction false} ListingExact(host: Host, dir: string, es: seq<Entry>)
    ensures forall e :: e in es && !Hidden(e.name) ==> NewItem(host, dir, e.name, e.isDir) in Listing(host, dir, es)
    ensures forall x :: x in Listing(host, dir, es) ==>
      exists e :: e in es && !Hidden(e.name) && x == NewItem(host, dir, e.name, e.isDir)
  {
    if es != [] {
      var init := es[..|es| - 1];
      ListingExact(host, dir, init);
      assert es == init + [es[|es| - 1]];
    }
  }

  /** What a rescan of `dir` stores: its listing, sorted by `operator<`. */
  function Rescan(host: Host, dir: string): seq<Item> {
    SortBy(Listing(host, dir, host.entries(dir)), KeyOf)
  }

  /** A rescan stores exactly the visible entries, sorted. */
  lemma RescanSorted(host: Host, dir: string)
    ensures SortedBy(Rescan(host, dir), KeyOf)
    ensures multiset(Rescan(host, dir)) == multiset(Listing(host, dir, host.entries(dir)))
  {
    SortBySorted(Listing(host, dir, host.entries(dir)), KeyOf);
  }

  /** The static `dirCache`. */
  class DirCache {
    var dirCache: map<string, CachedList<Item>>

    constructor ()
      ensures dirCache == map[]
    {
      dirCache := map[];
    }

    /** The `while (d.nextNonDot())` loop that collects the entries. */
    static method ScanDir(host: Host, dir: string) returns (items: seq<Item>)
      ensures items == Listing(host, dir, host.entries(dir))
    {
      var es := host.entries(dir);
      items := [];
      var k := 0;
      while k < |es|
        invariant k <= |es|
        invariant items == Listing(host, dir, es[..k])
      {
        assert es[..k + 1][..k] == es[..k];
        if !Hidden(es[k].name) {
          items := items + [NewItem(host, dir, es[k].name, es[k].isDir)];
        }
        k := k + 1;
      }
      assert es[..k] == es;
    }

    /**
     * `getCachedDirList` at clock reading `now`, with `later` the reading
     * taken again after a rescan.
     */
    method GetCachedDirList(host: Host, dir: string, now: int, later: int) returns (items: seq<Item>)
      modifies this
      ensures dirCache == old(dirCache)[dir := CacheUpdate(CacheEntry(old(dirCache), dir), now, later, Rescan(host, dir))]
      ensures items == dirCache[dir].items
    {
      var e := CacheEntry(dirCache, dir);
      var list: CachedList<Item>;
      if now > e.nextUpdate {
        var newList := ScanDir(host, dir);
        newList := SortBy(newList, KeyOf);
        list := CachedList(newList, later + OneSecond);
      } else {
        list := CachedList(e.items, now + OneSecond);
      }
      dirCache := dirCache[dir := list];
      items := list.items;
    }
  }
}
