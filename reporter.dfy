/**
 The reporter: `get_stem` and the output loop of `main`, which pairs each
 discovered path with the result of `read_link` and writes exactly one line
 for it, to standard output on success and to standard error otherwise.
 The file system is a parameter: what opening and reading each path gives.
 The two streams are modelled as the sequences of lines written to them.
 */
module Reporter {
  import opened Options
  import opened OsStrings
  import opened StdPath
  import opened Extractor
  import opened LinkReader
  import opened Discovery

  const NON_UTF8_STEM: string := "(non_utf8_file_name)"

  /** `get_stem`: the file stem as text, or the placeholder when there is no stem or it is not UTF-8. */
  function GetStem(path: OsStr): (r: string)
    ensures FileStem(path).None? ==> r == NON_UTF8_STEM
    ensures FileStem(path).Some? && IsUtf8(FileStem(path).value) ==> FromStr(r) == FileStem(path).value
    ensures FileStem(path).Some? && !IsUtf8(FileStem(path).value) ==> r == NON_UTF8_STEM
  {
    match FileStem(path)
    case None => NON_UTF8_STEM
    case Some(stem) =>
      match ToStr(stem)
      case None => NON_UTF8_STEM
      case Some(s) => ToStrRoundTrip(s, stem); s
  }

  /** The stem of `dir/stem.webloc` is `stem`, dots inside it included. */
  lemma GetStemOfWebloc(dir: OsStr, stem: string)
    requires stem != [] && '/' !in stem
    ensures GetStem(dir + [SLASH] + FromStr(stem + ".webloc")) == stem
  {
    WeblocPath(dir, stem, File);
    ToStrRoundTrip(stem, []);
  }

  /**
   For every discovered path, the stem is the file name with ".webloc" taken
   off, when that part is UTF-8, and the placeholder when it is not.
   */
  lemma GetStemOfDiscovered(p: OsStr)
    requires Extension(p) == Some(WEBLOC)
    ensures FileName(p).Some?
    ensures var name := FileName(p).value;
      var base := name[..|name| - |WEBLOC_SUFFIX|];
      |WEBLOC_SUFFIX| < |name| &&
      (IsUtf8(base) ==> FromStr(GetStem(p)) == base) &&
      (!IsUtf8(base) ==> GetStem(p) == NON_UTF8_STEM)
  {
    StemExtensionRoundTrip(p);
    var name := FileName(p).value;
    assert FileStem(p).value == name[..|name| - |WEBLOC_SUFFIX|];
    if IsUtf8(FileStem(p).value) {
      ToStrRoundTrip(ToStr(FileStem(p).value).value, FileStem(p).value);
    }
  }

  /** A bare file name works the same: `Example.webloc` has the stem `Example`. */
  lemma GetStemOfName(stem: string)
    requires stem != [] && '/' !in stem
    ensures GetStem(FromStr(stem + ".webloc")) == stem
  {
    var name := FromStr(stem + ".webloc");
    FromStrAppend(stem, ".webloc");
    FromStrAppend(".", "webloc");
    assert name == FromStr(stem) + [DOT] + WEBLOC;
    assert SLASH !in name by {
      assert forall k :: 0 <= k < |name| ==> name[k] == Valid((stem + ".webloc")[k]);
    }
    assert name[|name| - 1] != DOT;
    FileNameOfName(name);
    DottedName(name, FromStr(stem), WEBLOC);
    ToStrRoundTrip(stem, []);
  }

  lemma GetStemExample()
    ensures GetStem(FromStr("Example.webloc")) == "Example"
  {
    GetStemOfName("Example");
    assert "Example" + ".webloc" == "Example.webloc";
  }

  /** A success line: `* [STEM]( URL )`, with the blanks inside the parentheses. */
  function EntryLine(stem: string, link: string): (r: string)
    ensures |r| == |stem| + |link| + 8
    ensures r[3..3 + |stem|] == stem && r[|r| - 2 - |link|..|r| - 2] == link
  {
    "* [" + stem + "]( " + link + " )"
  }

  /** A failure line, naming the path as displayed. */
  function WarningLine(path: OsStr): (r: string)
    ensures |r| == 25 + |path| && r[25..] == Display(path)
  {
    "warning: failed to parse " + Display(path)
  }

  /** One line written by the loop, and the stream it goes to. */
  datatype Output = Stdout(text: string) | Stderr(text: string)

  /** The line written for one path, given what `read_link` gave for it. */
  function LineFor(path: OsStr, link: Option<string>): (r: Output)
    ensures r.Stdout? <==> link.Some?
  {
    match link
    case Some(l) => Stdout(EntryLine(GetStem(path), l))
    case None => Stderr(WarningLine(path))
  }

  /** Everything the loop writes, both streams together, in the order written. */
  function Transcript(paths: seq<OsStr>, fs: OsStr -> FileContent): (t: seq<Output>)
    ensures |t| == |paths|
    ensures forall k :: 0 <= k < |t| ==> t[k] == LineFor(paths[k], ReadLink(fs(paths[k])))
  {
    seq(|paths|, k requires 0 <= k < |paths| => LineFor(paths[k], ReadLink(fs(paths[k]))))
  }

  /** The lines of the transcript that went to standard output (`toStdout`) or to standard error. */
  function Written(t: seq<Output>, toStdout: bool): (r: seq<string>)
    ensures |r| <= |t|
  {
    if t == [] then []
    else
      var last := t[|t| - 1];
      Written(t[..|t| - 1], toStdout) + (if last.Stdout? == toStdout then [last.text] else [])
  }

  /** Each line goes to exactly one of the two streams. */
  lemma {:induction false} WrittenPartition(t: seq<Output>)
    ensures |Written(t, true)| + |Written(t, false)| == |t|
  {
    if t != [] {
      WrittenPartition(t[..|t| - 1]);
    }
  }

  lemma {:induction false} WrittenAppend(a: seq<Output>, b: seq<Output>, toStdout: bool)
    ensures Written(a + b, toStdout) == Written(a, toStdout) + Written(b, toStdout)
    decreases |b|
  {
    if b == [] {
      assert a + b == a;
    } else {
      var ab := a + b;
      var b' := b[..|b| - 1];
      var last := b[|b| - 1];
      assert ab[..|ab| - 1] == a + b';
      assert ab[|ab| - 1] == last;
      var h := if last.Stdout? == toStdout then [last.text] else [];
      assert Written(ab, toStdout) == Written(a + b', toStdout) + h;
      WrittenAppend(a, b', toStdout);
      assert Written(b, toStdout) == Written(b', toStdout) + h;
      assert (Written(a, toStdout) + Written(b', toStdout)) + h == Written(a, toStdout) + (Written(b', toStdout) + h);
    }
  }

  /**
   Order within a stream is the transcript's order: the line at position `k`
   is line number "lines of its stream before k" of that stream.
   */
  lemma WrittenPosition(t: seq<Output>, k: int)
    requires 0 <= k < |t|
    ensures |Written(t[..k], t[k].Stdout?)| < |Written(t, t[k].Stdout?)|
    ensures Written(t, t[k].Stdout?)[|Written(t[..k], t[k].Stdout?)|] == t[k].text
  {
    var s := t[k].Stdout?;
    assert t == t[..k] + [t[k]] + t[k + 1..];
    WrittenAppend(t[..k] + [t[k]], t[k + 1..], s);
    WrittenAppend(t[..k], [t[k]], s);
    assert Written([t[k]], s) == [t[k].text] by {
      assert [t[k]][..0] == [];
    }
  }

  lemma TranscriptAppend(a: seq<OsStr>, b: seq<OsStr>, fs: OsStr -> FileContent)
    ensures Transcript(a + b, fs) == Transcript(a, fs) + Transcript(b, fs)
  {
  }

  /** One more path adds its one line at the end of the transcript. */
  lemma TranscriptStep(paths: seq<OsStr>, fs: OsStr -> FileContent, i: int)
    requires 0 <= i < |paths|
    ensures Transcript(paths[..i + 1], fs) == Transcript(paths[..i], fs) + [LineFor(paths[i], ReadLink(fs(paths[i])))]
  {
  }

  /** One more line reaches exactly its own stream, at the end. */
  lemma WrittenStep(t: seq<Output>, line: Output, toStdout: bool)
    ensures Written(t + [line], toStdout) == Written(t, toStdout) + (if line.Stdout? == toStdout then [line.text] else [])
  {
    assert (t + [line])[..|t|] == t;
  }

  /**
   `main`: discover the webloc paths under the roots, then for each path in
   turn read its link and write one line to one of the two streams.
   */
  method Run(roots: seq<string>, walk: string -> seq<WalkItem>, fs: OsStr -> FileContent)
    returns (out: seq<string>, err: seq<string>)
    ensures out == Written(Transcript(Discover(roots, walk), fs), true)
    ensures err == Written(Transcript(Discover(roots, walk), fs), false)
    ensures |out| + |err| == |Discover(roots, walk)|
  {
    var paths := Discover(roots, walk);
    out, err := [], [];
    for i := 0 to |paths|
      invariant out == Written(Transcript(paths[..i], fs), true)
      invariant err == Written(Transcript(paths[..i], fs), false)
    {
      var linkOpt := ReadLink(fs(paths[i]));
      match linkOpt {
        case Some(link) =>
          out := out + [EntryLine(GetStem(paths[i]), link)];
        case None =>
          err := err + [WarningLine(paths[i])];
      }
      TranscriptStep(paths, fs, i);
      WrittenStep(Transcript(paths[..i], fs), LineFor(paths[i], linkOpt), true);
      WrittenStep(Transcript(paths[..i], fs), LineFor(paths[i], linkOpt), false);
    }
    assert paths[..|paths|] == paths;
    WrittenPartition(Transcript(paths, fs));
  }

  /**
   The line for the path at position `k` is written, and where: the list
   entry with its stem and link on standard output when the file yields a
   link, the warning naming it on standard error otherwise, in each case
   after the lines its stream received for the paths before it.
   */
  lemma ReportedAt(paths: seq<OsStr>, fs: OsStr -> FileContent, k: int)
    requires 0 <= k < |paths|
    ensures var t := Transcript(paths, fs);
      match ReadLink(fs(paths[k]))
      case Some(u) =>
        |Written(t[..k], true)| < |Written(t, true)| &&
        Written(t, true)[|Written(t[..k], true)|] == EntryLine(GetStem(paths[k]), u)
      case None =>
        |Written(t[..k], false)| < |Written(t, false)| &&
        Written(t, false)[|Written(t[..k], false)|] == WarningLine(paths[k])
  {
    WrittenPosition(Transcript(paths, fs), k);
  }

  /** When every discovered file yields a link, standard error stays empty and every path gets a list entry. */
  lemma AllParsed(paths: seq<OsStr>, fs: OsStr -> FileContent)
    requires forall k :: 0 <= k < |paths| ==> ReadLink(fs(paths[k])).Some?
    ensures Written(Transcript(paths, fs), false) == []
    ensures |Written(Transcript(paths, fs), true)| == |paths|
  {
    var t := Transcript(paths, fs);
    forall n | 0 <= n <= |t| ensures Written(t[..n], false) == [] {
      WrittenPrefixNoStderr(t, n);
    }
    assert t[..|t|] == t;
    WrittenPartition(t);
  }

  lemma {:induction false} WrittenPrefixNoStderr(t: seq<Output>, n: int)
    requires 0 <= n <= |t| && forall k :: 0 <= k < |t| ==> t[k].Stdout?
    ensures Written(t[..n], false) == []
    decreases n
  {
    if n > 0 {
      WrittenPrefixNoStderr(t, n - 1);
      assert t[..n][..n - 1] == t[..n - 1];
    }
  }

  /**
   A root holding one `stem.webloc` file whose content has exactly one line
   of the pattern, around other lines: one list entry, no warning.
   */
  lemma OneGoodFile(root: string, walk: string -> seq<WalkItem>, fs: OsStr -> FileContent,
                    dir: OsStr, stem: string, url: string, lines: seq<LineRead>, i: int)
    requires stem != [] && '/' !in stem
    requires walk(root) == [Found(DirEntry(dir + [SLASH] + FromStr(stem + ".webloc"), File))]
    requires fs(dir + [SLASH] + FromStr(stem + ".webloc")) == Opened(lines)
    requires UniqueMatch(lines, i) && lines[i] == Line(Wrap(url))
    ensures Written(Transcript(Discover([root], walk), fs), true) == [EntryLine(stem, url)]
    ensures Written(Transcript(Discover([root], walk), fs), false) == []
  {
    var p := dir + [SLASH] + FromStr(stem + ".webloc");
    WeblocPath(dir, stem, File);
    assert FindWeblocs(walk(root)) == [p] by {
      assert walk(root)[1..] == [];
    }
    assert Discover([root], walk) == [p] by {
      assert [root][1..] == [];
    }
    ReadLinkUnique(lines, i);
    LinkOfWrap(url);
    GetStemOfWebloc(dir, stem);
    var t := Transcript([p], fs);
    assert t == [Stdout(EntryLine(stem, url))];
    assert t[..0] == [];
  }

  /** A root holding one webloc whose content has no line of the pattern: a warning naming it, no list entry. */
  lemma OneBrokenFile(root: string, walk: string -> seq<WalkItem>, fs: OsStr -> FileContent,
                      dir: OsStr, stem: string, lines: seq<LineRead>)
    requires stem != [] && '/' !in stem
    requires walk(root) == [Found(DirEntry(dir + [SLASH] + FromStr(stem + ".webloc"), File))]
    requires fs(dir + [SLASH] + FromStr(stem + ".webloc")) == Opened(lines)
    requires forall j :: 0 <= j < |lines| ==> !Matches(lines[j])
    ensures Written(Transcript(Discover([root], walk), fs), true) == []
    ensures Written(Transcript(Discover([root], walk), fs), false)
         == [WarningLine(dir + [SLASH] + FromStr(stem + ".webloc"))]
  {
    var p := dir + [SLASH] + FromStr(stem + ".webloc");
    WeblocPath(dir, stem, File);
    assert FindWeblocs(walk(root)) == [p] by {
      assert walk(root)[1..] == [];
    }
    assert Discover([root], walk) == [p] by {
      assert [root][1..] == [];
    }
    ReadLinkNoMatch(lines);
    var t := Transcript([p], fs);
    assert t == [Stderr(WarningLine(p))];
    assert t[..0] == [];
  }

  /** Two roots: everything written for the first root comes before everything written for the second. */
  lemma TwoRoots(r1: string, r2: string, walk: string -> seq<WalkItem>, fs: OsStr -> FileContent, toStdout: bool)
    ensures Written(Transcript(Discover([r1, r2], walk), fs), toStdout)
         == Written(Transcript(Discover([r1], walk), fs), toStdout)
          + Written(Transcript(Discover([r2], walk), fs), toStdout)
  {
    assert [r1, r2] == [r1] + [r2];
    DiscoverAppend([r1], [r2], walk);
    TranscriptAppend(Discover([r1], walk), Discover([r2], walk), fs);
    WrittenAppend(Transcript(Discover([r1], walk), fs), Transcript(Discover([r2], walk), fs), toStdout);
  }

  /** A root that does not exist: the walk yields only its error, and nothing is written to either stream. */
  lemma MissingRoot(root: string, walk: string -> seq<WalkItem>, fs: OsStr -> FileContent, toStdout: bool)
    requires walk(root) == [WalkError]
    ensures Written(Transcript(Discover([root], walk), fs), toStdout) == []
  {
  }
}
