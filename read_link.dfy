/**
 `read_link`: run the line matcher over every line of a file, in order, and
 accept the file only when exactly one line yields a capture.
 */
module LinkReader {
  import opened Options
  import opened Extractor

  /** One item of `BufReader::lines`: a decoded line (terminator removed) or a read error. */
  datatype LineRead = Line(text: string) | Undecodable

  /** The outcome of `File::open` and then reading the file line by line. */
  datatype FileContent = OpenFailed | Opened(lines: seq<LineRead>)

  /** Line `l` is kept by `flatten` and gives a value under `f`. */
  predicate Hits(l: LineRead, f: string -> Option<string>) {
    l.Line? && f(l.text).Some?
  }

  /**
   `lines().flatten().filter_map(f).collect()`: the values `f` gives for the
   lines that could be read, in file order.
   */
  function FilterMap(lines: seq<LineRead>, f: string -> Option<string>): (r: seq<string>)
    ensures |r| <= |lines|
  {
    if lines == [] then []
    else (if Hits(lines[0], f) then [f(lines[0].text).value] else []) + FilterMap(lines[1..], f)
  }

  /** Line `i` is the one and only line that gives a value under `f`. */
  predicate UniqueHit(lines: seq<LineRead>, i: int, f: string -> Option<string>) {
    0 <= i < |lines| && Hits(lines[i], f) &&
    forall j :: 0 <= j < |lines| && j != i ==> !Hits(lines[j], f)
  }

  /** Every collected value is the value of some line of the file. */
  lemma {:induction false} FilterMapValues(lines: seq<LineRead>, f: string -> Option<string>, k: int)
    requires 0 <= k < |FilterMap(lines, f)|
    ensures exists i :: 0 <= i < |lines| && Hits(lines[i], f) && f(lines[i].text).value == FilterMap(lines, f)[k]
  {
    if Hits(lines[0], f) && k == 0 {
      assert f(lines[0].text).value == FilterMap(lines, f)[k];
    } else {
      var k' := if Hits(lines[0], f) then k - 1 else k;
      FilterMapValues(lines[1..], f, k');
      var i' :| 0 <= i' < |lines[1..]| && Hits(lines[1..][i'], f) && f(lines[1..][i'].text).value == FilterMap(lines[1..], f)[k'];
      assert lines[i' + 1] == lines[1..][i'];
    }
  }

  /** The values collected from a concatenation are those of each part, in order. */
  lemma {:induction false} FilterMapAppend(a: seq<LineRead>, b: seq<LineRead>, f: string -> Option<string>)
    ensures FilterMap(a + b, f) == FilterMap(a, f) + FilterMap(b, f)
  {
    if a == [] {
      assert a + b == b;
    } else {
      var ab := a + b;
      assert ab[0] == a[0];
      assert ab[1..] == a[1..] + b;
      var h := if Hits(a[0], f) then [f(a[0].text).value] else [];
      assert FilterMap(ab, f) == h + FilterMap(a[1..] + b, f);
      FilterMapAppend(a[1..], b, f);
      assert FilterMap(a, f) == h + FilterMap(a[1..], f);
      assert h + (FilterMap(a[1..], f) + FilterMap(b, f)) == (h + FilterMap(a[1..], f)) + FilterMap(b, f);
    }
  }

  /** Nothing is collected exactly when no line gives a value. */
  lemma {:induction false} FilterMapEmpty(lines: seq<LineRead>, f: string -> Option<string>)
    ensures FilterMap(lines, f) == [] <==> forall j :: 0 <= j < |lines| ==> !Hits(lines[j], f)
  {
    if lines != [] {
      FilterMapEmpty(lines[1..], f);
      assert forall j :: 0 <= j < |lines[1..]| ==> lines[1..][j] == lines[j + 1];
    }
  }

  /** Exactly the one value `u` is collected exactly when one line gives a value, and it gives `u`. */
  lemma {:induction false} FilterMapSingleton(lines: seq<LineRead>, f: string -> Option<string>, u: string)
    ensures FilterMap(lines, f) == [u] <==> exists i :: UniqueHit(lines, i, f) && f(lines[i].text).value == u
  {
    if lines == [] {
      return;
    }
    var tail := lines[1..];
    FilterMapEmpty(tail, f);
    FilterMapSingleton(tail, f, u);
    if FilterMap(lines, f) == [u] {
      if Hits(lines[0], f) {
        assert FilterMap(lines, f) == [f(lines[0].text).value] + FilterMap(tail, f);
        assert FilterMap(tail, f) == [];
        assert FilterMap(lines, f)[0] == f(lines[0].text).value;
        forall j | 0 <= j < |lines| && j != 0 ensures !Hits(lines[j], f) {
          assert lines[j] == tail[j - 1];
        }
        assert UniqueHit(lines, 0, f) && f(lines[0].text).value == u;
      } else {
        var i' :| UniqueHit(tail, i', f) && f(tail[i'].text).value == u;
        forall j | 0 <= j < |lines| && j != i' + 1 ensures !Hits(lines[j], f) {
          if j > 0 {
            assert lines[j] == tail[j - 1];
          }
        }
        assert lines[i' + 1] == tail[i'];
        assert UniqueHit(lines, i' + 1, f);
      }
    }
    if i :| UniqueHit(lines, i, f) && f(lines[i].text).value == u {
      if i == 0 {
        forall j | 0 <= j < |tail| ensures !Hits(tail[j], f) {
          assert tail[j] == lines[j + 1];
        }
        assert FilterMap(tail, f) == [];
        assert FilterMap(lines, f) == [f(lines[0].text).value] + FilterMap(tail, f);
      } else {
        assert !Hits(lines[0], f);
        assert tail[i - 1] == lines[i];
        forall j | 0 <= j < |tail| && j != i - 1 ensures !Hits(tail[j], f) {
          assert tail[j] == lines[j + 1];
        }
        assert UniqueHit(tail, i - 1, f) && f(tail[i - 1].text).value == u;
        assert FilterMap(tail, f) == [u];
        assert FilterMap(lines, f) == [] + FilterMap(tail, f);
      }
    }
  }

  /** A line that `Extractor::link` accepts. */
  predicate Matches(l: LineRead) {
    Hits(l, Link)
  }

  function Capture(l: LineRead): (r: string)
    requires Matches(l)
  {
    Link(l.text).value
  }

  /** The captures of the file, in file order. */
  function Captures(lines: seq<LineRead>): (r: seq<string>)
    ensures |r| <= |lines|
  {
    FilterMap(lines, Link)
  }

  /** Line `i` is the one and only line that matches. */
  predicate UniqueMatch(lines: seq<LineRead>, i: int) {
    UniqueHit(lines, i, Link)
  }

  /** The link of a file: none when it cannot be opened or unless exactly one line matches. */
  function ReadLink(file: FileContent): (r: Option<string>)
    ensures file.OpenFailed? ==> r == None
    ensures r.Some? ==> NoNewline(r.value)
  {
    match file
    case OpenFailed => None
    case Opened(lines) =>
      var links := Captures(lines);
      if |links| == 1 then FilterMapValues(lines, Link, 0); Some(links[0]) else None
  }

  /** Captures are collected in file order: those of a concatenation are those of each part. */
  lemma CapturesAppend(a: seq<LineRead>, b: seq<LineRead>)
    ensures Captures(a + b) == Captures(a) + Captures(b)
  {
    FilterMapAppend(a, b, Link);
  }

  /** Exactly one matching line: its capture is the link. */
  lemma ReadLinkUnique(lines: seq<LineRead>, i: int)
    requires UniqueMatch(lines, i)
    ensures ReadLink(Opened(lines)) == Some(Capture(lines[i]))
  {
    FilterMapSingleton(lines, Link, Capture(lines[i]));
  }

  /** A link is only ever given for a file with exactly one matching line, and it is that line's capture. */
  lemma ReadLinkSome(file: FileContent, u: string)
    requires ReadLink(file) == Some(u)
    ensures file.Opened? && exists i :: UniqueMatch(file.lines, i) && Capture(file.lines[i]) == u
  {
    FilterMapSingleton(file.lines, Link, u);
  }

  /** A file without any matching line has no link. */
  lemma ReadLinkNoMatch(lines: seq<LineRead>)
    requires forall j :: 0 <= j < |lines| ==> !Matches(lines[j])
    ensures ReadLink(Opened(lines)) == None
  {
    FilterMapEmpty(lines, Link);
  }

  /** Two matching lines make the file ambiguous: no link, even when both captures are equal. */
  lemma ReadLinkAmbiguous(lines: seq<LineRead>, i: int, j: int)
    requires 0 <= i < j < |lines| && Matches(lines[i]) && Matches(lines[j])
    ensures ReadLink(Opened(lines)) == None
  {
    if ReadLink(Opened(lines)).Some? {
      ReadLinkSome(Opened(lines), ReadLink(Opened(lines)).value);
    }
  }

  /** A line that cannot be read is skipped; it makes no difference to the result. */
  lemma ReadLinkSkipsUndecodable(a: seq<LineRead>, b: seq<LineRead>)
    ensures ReadLink(Opened(a + [Undecodable] + b)) == ReadLink(Opened(a + b))
  {
    FilterMapAppend(a + [Undecodable], b, Link);
    FilterMapAppend(a, [Undecodable], Link);
    FilterMapAppend(a, b, Link);
    assert FilterMap([Undecodable], Link) == [] by {
      assert [Undecodable][1..] == [];
    }
  }
}
