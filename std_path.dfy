/**
 The parts of Rust's `std::path` the program relies on, for Unix paths:
 `Path::file_name`, `Path::file_stem` and `Path::extension`.
 */
module StdPath {
  import opened Options
  import opened OsStrings

  const SLASH: OsUnit := Valid('/')
  const DOT: OsUnit := Valid('.')
  const CUR_DIR: OsStr := [DOT]
  const PARENT_DIR: OsStr := [DOT, DOT]

  /** The pieces of a path between separators, empty pieces included. */
  function Split(p: OsStr): (r: seq<OsStr>)
    ensures |r| >= 1
    ensures forall k :: 0 <= k < |r| ==> SLASH !in r[k]
    decreases |p|
  {
    if p == [] then [[]]
    else if p[0] == SLASH then [[]] + Split(p[1..])
    else
      var rest := Split(p[1..]);
      [[p[0]] + rest[0]] + rest[1..]
  }

  /** Puts the pieces back together with one separator between neighbours. */
  function Join(pieces: seq<OsStr>): (r: OsStr)
    requires |pieces| >= 1
  {
    if |pieces| == 1 then pieces[0] else pieces[0] + [SLASH] + Join(pieces[1..])
  }

  /** Splitting is undone by joining: no character of the path is lost. */
  lemma {:induction false} SplitJoin(p: OsStr)
    ensures Join(Split(p)) == p
    decreases |p|
  {
    if p == [] {
    } else if p[0] == SLASH {
      SplitJoin(p[1..]);
      assert p == [SLASH] + p[1..];
    } else {
      var rest := Split(p[1..]);
      SplitJoin(p[1..]);
      if |rest| == 1 {
        assert p == [p[0]] + p[1..];
      } else {
        assert Join(rest) == rest[0] + [SLASH] + Join(rest[1..]);
        assert p == [p[0]] + p[1..];
      }
    }
  }

  lemma {:induction false} SplitNoSlash(p: OsStr)
    requires SLASH !in p
    ensures Split(p) == [p]
    decreases |p|
  {
    if p != [] {
      SplitNoSlash(p[1..]);
      assert p == [p[0]] + p[1..];
    }
  }

  /** A separator between two paths separates their pieces. */
  lemma {:induction false} SplitAppend(a: OsStr, b: OsStr)
    ensures Split(a + [SLASH] + b) == Split(a) + Split(b)
    decreases |a|
  {
    if a == [] {
      assert a + [SLASH] + b == [SLASH] + b;
      assert ([SLASH] + b)[1..] == b;
    } else {
      assert (a + [SLASH] + b)[1..] == a[1..] + [SLASH] + b;
      SplitAppend(a[1..], b);
    }
  }

  /**
   The pieces that become components: Rust's `Components` drops empty pieces
   and "." pieces (a leading "." is kept as `CurDir`, which is never a file name).
   */
  function Kept(pieces: seq<OsStr>): (r: seq<OsStr>)
    ensures |r| <= |pieces|
    ensures forall k :: 0 <= k < |r| ==> r[k] in pieces && r[k] != [] && r[k] != CUR_DIR
  {
    if pieces == [] then []
    else if pieces[0] == [] || pieces[0] == CUR_DIR then Kept(pieces[1..])
    else [pieces[0]] + Kept(pieces[1..])
  }

  lemma {:induction false} KeptAppend(a: seq<OsStr>, b: seq<OsStr>)
    ensures Kept(a + b) == Kept(a) + Kept(b)
  {
    if a == [] {
      assert a + b == b;
    } else {
      assert (a + b)[1..] == a[1..] + b;
      KeptAppend(a[1..], b);
    }
  }

  /** A name that can be the last component of a path: `Component::Normal`. */
  predicate IsNormalName(name: OsStr) {
    name != [] && name != CUR_DIR && name != PARENT_DIR && SLASH !in name
  }

  /** `Path::file_name`: the last component if it is a normal one. */
  function FileName(p: OsStr): (r: Option<OsStr>)
    ensures r.Some? ==> IsNormalName(r.value)
  {
    var ks := Kept(Split(p));
    if ks == [] || ks[|ks| - 1] == PARENT_DIR then None else Some(ks[|ks| - 1])
  }

  /** The file name of an entry read from a directory is the name it was read under. */
  lemma FileNameOfJoin(dir: OsStr, name: OsStr)
    requires IsNormalName(name)
    ensures FileName(dir + [SLASH] + name) == Some(name)
  {
    SplitAppend(dir, name);
    SplitNoSlash(name);
    KeptAppend(Split(dir), [name]);
    assert Kept([name]) == [name] by {
      assert [name][1..] == [];
    }
  }

  lemma FileNameOfName(name: OsStr)
    requires IsNormalName(name)
    ensures FileName(name) == Some(name)
  {
    SplitNoSlash(name);
    assert Kept([name]) == [name] by {
      assert [name][1..] == [];
    }
  }

  /** Like `Path::new("a/b/").file_name()`: a trailing separator changes nothing. */
  lemma FileNameTrailingSlash(p: OsStr)
    ensures FileName(p + [SLASH]) == FileName(p)
  {
    var empty: OsStr := [];
    assert p + [SLASH] + empty == p + [SLASH];
    SplitAppend(p, empty);
    assert Split(empty) == [empty];
    KeptAppend(Split(p), [empty]);
    assert Kept([empty]) == [] by {
      assert [empty][1..] == [];
    }
    assert Kept(Split(p + [SLASH])) == Kept(Split(p));
  }

  /** `Path::new("..").file_name()` and `Path::new("/").file_name()` are `None`. */
  lemma FileNameNone()
    ensures FileName(PARENT_DIR) == None
    ensures FileName([SLASH]) == None
    ensures FileName([]) == None
  {
    SplitNoSlash(PARENT_DIR);
    assert Kept([PARENT_DIR]) == [PARENT_DIR] by {
      assert [PARENT_DIR][1..] == [];
    }
    assert Split([SLASH]) == [[], []] by {
      assert [SLASH][1..] == [];
    }
  }

  /** The position of the last occurrence of `x` in `s`. */
  function LastIndexOf(s: OsStr, x: OsUnit): (r: Option<nat>)
    ensures r.Some? ==> r.value < |s| && s[r.value] == x && x !in s[r.value + 1..]
    ensures r.None? ==> x !in s
  {
    if s == [] then None
    else if s[|s| - 1] == x then Some(|s| - 1)
    else
      var r := LastIndexOf(s[..|s| - 1], x);
      assert s == s[..|s| - 1] + [s[|s| - 1]];
      r
  }

  /**
   std's `rsplit_file_at_dot`: the text before and after the last dot; a name
   whose only dot is its first character has nothing after.
   */
  function RSplitFileAtDot(file: OsStr): (r: (Option<OsStr>, Option<OsStr>))
    ensures r.0.Some? || r.1.Some?
    ensures r.0.Some? && r.1.Some? ==> file == r.0.value + [DOT] + r.1.value
  {
    if file == PARENT_DIR then (Some(file), None)
    else
      match LastIndexOf(file, DOT)
      case None => (None, Some(file))
      case Some(i) => if i == 0 then (Some(file), None) else (Some(file[..i]), Some(file[i + 1..]))
  }

  /** `Path::file_stem`: `before.or(after)`. */
  function FileStem(p: OsStr): (r: Option<OsStr>)
    ensures r.Some? <==> FileName(p).Some?
  {
    match FileName(p)
    case None => None
    case Some(name) =>
      var (before, after) := RSplitFileAtDot(name);
      if before.Some? then before else after
  }

  /** `Path::extension`: `before.and(after)`. */
  function Extension(p: OsStr): (r: Option<OsStr>)
    ensures r.Some? ==> FileStem(p).Some? && FileName(p).value == FileStem(p).value + [DOT] + r.value
  {
    match FileName(p)
    case None => None
    case Some(name) =>
      var (before, after) := RSplitFileAtDot(name);
      if before.Some? then after else None
  }

  /**
   How `rsplit_file_at_dot` cuts a file name: with an extension, the name is
   stem + "." + extension, the stem is non-empty and the extension holds no
   dot; otherwise the stem is the whole name.
   */
  lemma RSplitParts(name: OsStr)
    requires IsNormalName(name)
    ensures var (before, after) := RSplitFileAtDot(name);
      (before.Some? || after.Some?) &&
      (before.Some? && after.Some? ==>
        name == before.value + [DOT] + after.value && before.value != [] && DOT !in after.value) &&
      (before.Some? && after.None? ==> before.value == name) &&
      (before.None? ==> after == Some(name))
  {
    match LastIndexOf(name, DOT)
    case None =>
    case Some(i) =>
      if i != 0 {
        assert name == name[..i] + [DOT] + name[i + 1..];
      }
  }

  /**
   A name made of a non-empty stem, a dot and a dot-free extension is cut at
   that dot, unless it is "..", which std never cuts.
   */
  lemma RSplitDotted(stem: OsStr, ext: OsStr)
    requires stem != [] && DOT !in ext && stem + [DOT] + ext != PARENT_DIR
    ensures RSplitFileAtDot(stem + [DOT] + ext) == (Some(stem), Some(ext))
  {
    var name := stem + [DOT] + ext;
    assert name[|stem|] == DOT;
    assert name[|stem| + 1..] == ext;
    assert name[..|stem|] == stem;
    assert LastIndexOf(name, DOT) == Some(|stem|);
  }

  /**
   Stem and extension split the file name at its last dot and lose nothing:
   with an extension the name is stem + "." + extension, without one the
   stem is the whole name. The extension holds no dot and the stem is never empty.
   */
  lemma StemExtensionRoundTrip(p: OsStr)
    ensures FileStem(p).Some? <==> FileName(p).Some?
    ensures Extension(p).Some? ==>
      FileName(p).value == FileStem(p).value + [DOT] + Extension(p).value && DOT !in Extension(p).value
    ensures FileName(p).Some? && Extension(p).None? ==> FileStem(p) == FileName(p)
    ensures FileStem(p).Some? ==> FileStem(p).value != []
  {
    if FileName(p).Some? {
      RSplitParts(FileName(p).value);
    }
  }

  /**
   Conversely, a file name made of a non-empty stem, a dot and a dot-free
   extension has exactly that stem and that extension.
   */
  lemma DottedName(p: OsStr, stem: OsStr, ext: OsStr)
    requires FileName(p) == Some(stem + [DOT] + ext)
    requires stem != [] && DOT !in ext
    ensures Extension(p) == Some(ext) && FileStem(p) == Some(stem)
  {
    RSplitDotted(stem, ext);
  }

  /** A hidden name such as ".webloc" (one dot, in front) has no extension; its stem is the whole name. */
  lemma HiddenName(p: OsStr)
    requires FileName(p).Some? && FileName(p).value[0] == DOT && DOT !in FileName(p).value[1..]
    ensures Extension(p) == None && FileStem(p) == FileName(p)
  {
    var name := FileName(p).value;
    assert LastIndexOf(name, DOT) == Some(0);
  }
}
