/**
 Discovery of the files to convert: `is_webloc`, `find_weblocs` and the
 `flat_map` over the root arguments in `main`. The directory walk itself is a
 parameter: for each root, the items the walk yields, in the walk's order.
 */
module Discovery {
  import opened Options
  import opened OsStrings
  import opened StdPath

  datatype EntryKind = File | Directory | Symlink

  datatype DirEntry = DirEntry(path: OsStr, kind: EntryKind)

  /** One item of the walk: an entry, or a traversal error (which `flatten` drops). */
  datatype WalkItem = Found(entry: DirEntry) | WalkError

  const WEBLOC: OsStr := FromStr("webloc")
  const WEBLOC_SUFFIX: OsStr := [DOT] + WEBLOC

  /** `is_webloc`: the path's extension is exactly "webloc"; the kind of entry is not looked at. */
  predicate IsWebloc(entry: DirEntry)
    ensures IsWebloc(entry) ==>
      FileStem(entry.path).Some? && FileName(entry.path).value == FileStem(entry.path).value + WEBLOC_SUFFIX
  {
    Extension(entry.path) == Some(WEBLOC)
  }

  /** A file name that ends in ".webloc" and has something before that dot. */
  predicate HasWeblocName(name: OsStr) {
    |WEBLOC_SUFFIX| < |name| && name[|name| - |WEBLOC_SUFFIX|..] == WEBLOC_SUFFIX
  }

  /** An entry is a webloc exactly when its file name ends in ".webloc" after a non-empty stem. */
  lemma IsWeblocIff(entry: DirEntry)
    ensures IsWebloc(entry) <==> FileName(entry.path).Some? && HasWeblocName(FileName(entry.path).value)
  {
    var p := entry.path;
    StemExtensionRoundTrip(p);
    if IsWebloc(entry) {
      var name := FileName(p).value;
      assert name == FileStem(p).value + WEBLOC_SUFFIX;
      assert name[|name| - |WEBLOC_SUFFIX|..] == WEBLOC_SUFFIX;
    }
    if FileName(p).Some? && HasWeblocName(FileName(p).value) {
      var name := FileName(p).value;
      var stem := name[..|name| - |WEBLOC_SUFFIX|];
      assert name == stem + [DOT] + WEBLOC;
      assert DOT !in WEBLOC;
      DottedName(p, stem, WEBLOC);
    }
  }

  /** The path of the file `stem.webloc` in a directory: a webloc, whose stem is `stem`. */
  lemma WeblocPath(dir: OsStr, stem: string, kind: EntryKind)
    requires stem != [] && '/' !in stem
    ensures FileName(dir + [SLASH] + FromStr(stem + ".webloc")) == Some(FromStr(stem + ".webloc"))
    ensures IsWebloc(DirEntry(dir + [SLASH] + FromStr(stem + ".webloc"), kind))
    ensures FileStem(dir + [SLASH] + FromStr(stem + ".webloc")) == Some(FromStr(stem))
  {
    var name := FromStr(stem + ".webloc");
    var p := dir + [SLASH] + name;
    FromStrAppend(stem, ".webloc");
    FromStrAppend(".", "webloc");
    assert name == FromStr(stem) + [DOT] + WEBLOC;
    assert SLASH !in name by {
      assert forall k :: 0 <= k < |name| ==> name[k] == Valid((stem + ".webloc")[k]);
    }
    assert name[|name| - 1] != DOT;
    FileNameOfJoin(dir, name);
    DottedName(p, FromStr(stem), WEBLOC);
  }

  /** The rule is case-sensitive, needs a stem before the dot, and looks only at the last extension. */
  lemma WeblocNameExamples()
    ensures HasWeblocName(FromStr("News.webloc"))
    ensures !HasWeblocName(FromStr("X.WEBLOC"))
    ensures !HasWeblocName(FromStr(".webloc"))
    ensures !HasWeblocName(FromStr("a.webloc.bak"))
  {
    assert FromStr("News.webloc")[4..] == WEBLOC_SUFFIX;
    assert FromStr("X.WEBLOC")[2] != WEBLOC_SUFFIX[1];
    var bak := FromStr("a.webloc.bak");
    assert bak[|bak| - 1] != WEBLOC_SUFFIX[|WEBLOC_SUFFIX| - 1];
  }

  /** Item `item` is an entry (not a traversal error) that passes `keep`. */
  predicate Passes(item: WalkItem, keep: DirEntry -> bool) {
    item.Found? && keep(item.entry)
  }

  /** `flatten().filter(keep).map(path)`: the paths of the walked entries that pass `keep`, in walk order. */
  function Select(items: seq<WalkItem>, keep: DirEntry -> bool): (r: seq<OsStr>)
    ensures |r| <= |items|
  {
    if items == [] then []
    else (if Passes(items[0], keep) then [items[0].entry.path] else []) + Select(items[1..], keep)
  }

  lemma {:induction false} SelectAppend(a: seq<WalkItem>, b: seq<WalkItem>, keep: DirEntry -> bool)
    ensures Select(a + b, keep) == Select(a, keep) + Select(b, keep)
  {
    if a == [] {
      assert a + b == b;
    } else {
      var ab := a + b;
      assert ab[0] == a[0];
      assert ab[1..] == a[1..] + b;
      var h := if Passes(a[0], keep) then [a[0].entry.path] else [];
      assert Select(ab, keep) == h + Select(a[1..] + b, keep);
      SelectAppend(a[1..], b, keep);
      assert Select(a, keep) == h + Select(a[1..], keep);
      assert h + (Select(a[1..], keep) + Select(b, keep)) == (h + Select(a[1..], keep)) + Select(b, keep);
    }
  }

  /** A path is selected exactly when some walked entry with that path passes. */
  lemma {:induction false} SelectMember(items: seq<WalkItem>, keep: DirEntry -> bool, p: OsStr)
    ensures p in Select(items, keep) <==>
      exists k :: 0 <= k < |items| && Passes(items[k], keep) && items[k].entry.path == p
  {
    if items != [] {
      SelectMember(items[1..], keep, p);
      if p in Select(items, keep) && !(Passes(items[0], keep) && items[0].entry.path == p) {
        var k :| 0 <= k < |items[1..]| && Passes(items[1..][k], keep) && items[1..][k].entry.path == p;
        assert items[k + 1] == items[1..][k];
      }
      if k :| 0 <= k < |items| && Passes(items[k], keep) && items[k].entry.path == p {
        if k > 0 {
          assert items[1..][k - 1] == items[k];
        }
      }
    }
  }

  /** The selection of one item that passes is its path. */
  lemma SelectOne(item: WalkItem, keep: DirEntry -> bool)
    requires Passes(item, keep)
    ensures Select([item], keep) == [item.entry.path]
  {
    assert [item][1..] == [];
  }

  /** A selected entry at position `i` comes out after the selections of the items before it. */
  lemma SelectPosition(items: seq<WalkItem>, keep: DirEntry -> bool, i: int)
    requires 0 <= i < |items| && Passes(items[i], keep)
    ensures |Select(items[..i], keep)| < |Select(items, keep)|
    ensures Select(items, keep)[|Select(items[..i], keep)|] == items[i].entry.path
  {
    var front, back := items[..i], items[i + 1..];
    assert items == (front + [items[i]]) + back;
    SelectAppend(front + [items[i]], back, keep);
    SelectAppend(front, [items[i]], keep);
    SelectOne(items[i], keep);
    assert Select(items, keep) == Select(front, keep) + [items[i].entry.path] + Select(back, keep);
  }

  /** `find_weblocs`: the paths of the walked entries that are weblocs, in walk order. */
  function FindWeblocs(items: seq<WalkItem>): (r: seq<OsStr>)
    ensures |r| <= |items|
  {
    Select(items, IsWebloc)
  }

  /** The item is kept by discovery: a walked entry that is a webloc. */
  predicate Selected(item: WalkItem) {
    Passes(item, IsWebloc)
  }

  /** Discovery distributes over concatenation: walk order is kept. */
  lemma FindWeblocsAppend(a: seq<WalkItem>, b: seq<WalkItem>)
    ensures FindWeblocs(a + b) == FindWeblocs(a) + FindWeblocs(b)
  {
    SelectAppend(a, b, IsWebloc);
  }

  /** A path is discovered exactly when some walked entry with that path is a webloc. */
  lemma FindWeblocsMember(items: seq<WalkItem>, p: OsStr)
    ensures p in FindWeblocs(items) <==>
      exists k :: 0 <= k < |items| && Selected(items[k]) && items[k].entry.path == p
  {
    SelectMember(items, IsWebloc, p);
  }

  /** Everything discovered is a webloc. */
  lemma FindWeblocsSound(items: seq<WalkItem>, p: OsStr)
    requires p in FindWeblocs(items)
    ensures Extension(p) == Some(WEBLOC)
  {
    SelectMember(items, IsWebloc, p);
  }

  /**
   Order is kept: a webloc entry at position `i` is discovered at position
   "number of weblocs before i", so a later entry comes out later.
   */
  lemma FindWeblocsPosition(items: seq<WalkItem>, i: int)
    requires 0 <= i < |items| && Selected(items[i])
    ensures |FindWeblocs(items[..i])| < |FindWeblocs(items)|
    ensures FindWeblocs(items)[|FindWeblocs(items[..i])|] == items[i].entry.path
  {
    SelectPosition(items, IsWebloc, i);
  }

  lemma FindWeblocsOrder(items: seq<WalkItem>, i: int, j: int)
    requires 0 <= i < j < |items| && Selected(items[i])
    ensures |FindWeblocs(items[..i])| < |FindWeblocs(items[..j])|
  {
    assert items[..j] == items[..i] + items[i..j];
    SelectAppend(items[..i], items[i..j], IsWebloc);
    assert items[i..j] == [items[i]] + items[i + 1..j];
    SelectAppend([items[i]], items[i + 1..j], IsWebloc);
    SelectOne(items[i], IsWebloc);
  }

  /** A traversal error is dropped and changes nothing else. */
  lemma FindWeblocsDropsErrors(a: seq<WalkItem>, b: seq<WalkItem>)
    ensures FindWeblocs(a + [WalkError] + b) == FindWeblocs(a + b)
  {
    SelectAppend(a + [WalkError], b, IsWebloc);
    SelectAppend(a, [WalkError], IsWebloc);
    SelectAppend(a, b, IsWebloc);
    assert Select([WalkError], IsWebloc) == [] by {
      assert [WalkError][1..] == [];
    }
  }

  /** A directory named like a webloc is discovered like a file. */
  lemma FindWeblocsTakesDirectories(dir: OsStr, stem: string)
    requires stem != [] && '/' !in stem
    ensures FindWeblocs([Found(DirEntry(dir + [SLASH] + FromStr(stem + ".webloc"), Directory))])
         == [dir + [SLASH] + FromStr(stem + ".webloc")]
  {
    WeblocPath(dir, stem, Directory);
    SelectOne(Found(DirEntry(dir + [SLASH] + FromStr(stem + ".webloc"), Directory)), IsWebloc);
  }

  /** `main`'s `flat_map(find_weblocs)`: each root's discoveries, roots in argument order. */
  function Discover(roots: seq<string>, walk: string -> seq<WalkItem>): (r: seq<OsStr>)
    ensures roots == [] ==> r == []
    ensures roots != [] ==>
      |FindWeblocs(walk(roots[0]))| <= |r| && r[..|FindWeblocs(walk(roots[0]))|] == FindWeblocs(walk(roots[0]))
  {
    if roots == [] then [] else FindWeblocs(walk(roots[0])) + Discover(roots[1..], walk)
  }

  lemma {:induction false} DiscoverAppend(a: seq<string>, b: seq<string>, walk: string -> seq<WalkItem>)
    ensures Discover(a + b, walk) == Discover(a, walk) + Discover(b, walk)
  {
    if a == [] {
      assert a + b == b;
    } else {
      var ab := a + b;
      assert ab[0] == a[0];
      assert ab[1..] == a[1..] + b;
      var h := FindWeblocs(walk(a[0]));
      assert Discover(ab, walk) == h + Discover(a[1..] + b, walk);
      DiscoverAppend(a[1..], b, walk);
      assert Discover(a, walk) == h + Discover(a[1..], walk);
      assert h + (Discover(a[1..], walk) + Discover(b, walk)) == (h + Discover(a[1..], walk)) + Discover(b, walk);
    }
  }

  /** A path is discovered exactly when the walk of one of the roots discovers it. */
  lemma {:induction false} DiscoverMember(roots: seq<string>, walk: string -> seq<WalkItem>, p: OsStr)
    ensures p in Discover(roots, walk) <==> exists i :: 0 <= i < |roots| && p in FindWeblocs(walk(roots[i]))
  {
    if roots != [] {
      DiscoverMember(roots[1..], walk, p);
      if p in Discover(roots, walk) && p !in FindWeblocs(walk(roots[0])) {
        var i :| 0 <= i < |roots[1..]| && p in FindWeblocs(walk(roots[1..][i]));
        assert roots[i + 1] == roots[1..][i];
      }
      if i :| 0 <= i < |roots| && p in FindWeblocs(walk(roots[i])) {
        if i > 0 {
          assert roots[1..][i - 1] == roots[i];
        }
      }
    }
  }

  /** Everything discovered from any root is a webloc. */
  lemma DiscoverSound(roots: seq<string>, walk: string -> seq<WalkItem>, p: OsStr)
    requires p in Discover(roots, walk)
    ensures Extension(p) == Some(WEBLOC)
  {
    DiscoverMember(roots, walk, p);
    var i :| 0 <= i < |roots| && p in FindWeblocs(walk(roots[i]));
    FindWeblocsSound(walk(roots[i]), p);
  }
}
