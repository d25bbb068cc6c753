/**
 * The language directory as an abstract store: each bundle file, named by
 * its path `"{locale}/{class}/{id}.php"` under the language root, holds one
 * bundle. Loading a file and writing it back are taken as a faithful pair,
 * so the store is a map from path to bundle.
 */
module BundleStore {
  import opened Wrappers
  import opened SlotKeys
  import opened Bundles

  type Files = map<string, Bundle>

  /** A path component that holds no directory separator. */
  predicate NoSlash(s: string)
  {
    forall i :: 0 <= i < |s| ==> s[i] != '/'
  }

  /**
   * The path of the bundle of one (locale, class, id), relative to the
   * language root: the locale directory, the class directory, the id file.
   */
  function BundlePath(locale: string, cls: string, id: string): (p: string)
    ensures |p| == |locale| + |cls| + |id| + 6
    ensures p[..|locale|] == locale && p[|locale|] == '/'
    ensures p[|p| - 4..] == ".php"
  {
    locale + "/" + cls + "/" + id + ".php"
  }

  /** Where the separator after a slash-free prefix falls, and where it cannot. */
  lemma SlashPositions(l1: string, r1: string, l2: string, r2: string)
    requires NoSlash(l2) && |l1| < |l2|
    ensures (l1 + "/" + r1)[|l1|] == '/'
    ensures (l2 + "/" + r2)[|l1|] != '/'
  {
  }

  /** A slash-free prefix ends at the first slash, so it is determined by the string. */
  lemma SplitAtSlash(l1: string, r1: string, l2: string, r2: string)
    requires NoSlash(l1) && NoSlash(l2)
    requires l1 + "/" + r1 == l2 + "/" + r2
    ensures l1 == l2 && r1 == r2
  {
    var s := l1 + "/" + r1;
    assert |l1| == |l2| by {
      if |l1| < |l2| {
        SlashPositions(l1, r1, l2, r2);
        assert false;
      } else if |l2| < |l1| {
        SlashPositions(l2, r2, l1, r1);
        assert false;
      }
    }
    assert l1 == s[..|l1|] == l2;
    assert r1 == s[|l1| + 1..] == r2;
  }

  /**
   * Distinct (locale, class, id) triples give distinct path strings, as long
   * as the locale and the class name hold no slash; with a slash, `("a/b", "C")`
   * and `("a", "b/C")` would share one. (The file system may still resolve two
   * distinct strings to one file, as it does for the locales `.` and the empty one.)
   */
  lemma PathInjective(l1: string, c1: string, i1: string, l2: string, c2: string, i2: string)
    requires NoSlash(l1) && NoSlash(c1) && NoSlash(l2) && NoSlash(c2)
    requires BundlePath(l1, c1, i1) == BundlePath(l2, c2, i2)
    ensures l1 == l2 && c1 == c2 && i1 == i2
  {
    assert BundlePath(l1, c1, i1) == l1 + "/" + (c1 + "/" + (i1 + ".php"));
    assert BundlePath(l2, c2, i2) == l2 + "/" + (c2 + "/" + (i2 + ".php"));
    SplitAtSlash(l1, c1 + "/" + (i1 + ".php"), l2, c2 + "/" + (i2 + ".php"));
    SplitAtSlash(c1, i1 + ".php", c2, i2 + ".php");
    assert i1 == (i1 + ".php")[..|i1|];
    assert i2 == (i2 + ".php")[..|i2|];
  }

  /** The bundle at `path`, or an empty one when no file exists there. */
  function LoadBundle(files: Files, path: string): (b: Bundle)
    ensures path !in files ==> b == map[]
    ensures path in files ==> b == files[path]
  {
    if path in files then files[path] else map[]
  }

  /** The read: null without a bundle file, else the key's value or null. */
  function ReadAt(files: Files, path: string, key: string): (r: Option<string>)
    ensures r.Some? <==> path in files && key in files[path]
    ensures r.Some? ==> r.value == files[path][key]
  {
    if path !in files then None
    else if key in files[path] then Some(files[path][key])
    else None
  }

  /**
   * The versioned write into the store: the bundle at `path` is loaded (or
   * started empty), written with history, and put back; the file at `path`
   * is created or replaced and every other file stays as it was.
   */
  function StoreWrite(files: Files, path: string, key: string, value: string): (r: Files)
    ensures r.Keys == files.Keys + {path}
    ensures forall p :: p in files && p != path ==> r[p] == files[p]
    ensures r[path] == Versioned(LoadBundle(files, path), key, value)
  {
    files[path := Versioned(LoadBundle(files, path), key, value)]
  }

  /** Writing then reading the same path and key gives the written value. */
  lemma WriteThenRead(files: Files, path: string, key: string, value: string)
    ensures ReadAt(StoreWrite(files, path, key, value), path, key) == Some(value)
  {
  }

  /** A write leaves every key already present in any bundle readable with its old value. */
  lemma WriteKeepsOtherReads(files: Files, path: string, key: string, value: string,
                             path': string, key': string)
    requires path' != path || key' != key
    requires ReadAt(files, path', key').Some?
    ensures ReadAt(StoreWrite(files, path, key, value), path', key') == ReadAt(files, path', key')
  {
  }

  /** Two strings with a common suffix are equal when the whole strings are. */
  lemma SuffixCancel(a: string, b: string, t: string)
    requires a + t == b + t
    ensures a == b
  {
    assert a == (a + t)[..|a|];
    assert b == (b + t)[..|b|];
  }

  /**
   * A write for one locale is invisible to reads of every other locale of
   * the same class and id: their paths differ in the locale part only.
   */
  lemma LocalesIsolated(files: Files, cls: string, id: string, l1: string, l2: string,
                        key: string, value: string, key': string)
    requires l1 != l2
    ensures ReadAt(StoreWrite(files, BundlePath(l1, cls, id), key, value), BundlePath(l2, cls, id), key')
         == ReadAt(files, BundlePath(l2, cls, id), key')
  {
    var tail := "/" + cls + "/" + id + ".php";
    assert BundlePath(l1, cls, id) == l1 + tail;
    assert BundlePath(l2, cls, id) == l2 + tail;
    if BundlePath(l1, cls, id) == BundlePath(l2, cls, id) {
      SuffixCancel(l1, l2, tail);
    }
  }
}
