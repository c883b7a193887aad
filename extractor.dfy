/**
 `Extractor::link`: the fixed, anchored line pattern `^\t<string>(.*)</string>$`,
 stated directly as a prefix, a suffix and a middle without line feeds.
 */
module Extractor {
  import opened Options

  const OPEN: string := "\t<string>"
  const CLOSE: string := "</string>"

  /** What the capture `(.*)` may hold: `.` matches every character but '\n'. */
  predicate NoNewline(s: string) {
    '\n' !in s
  }

  /** The one line the pattern accepts with capture `u`. */
  function Wrap(u: string): (r: string) {
    OPEN + u + CLOSE
  }

  predicate StartsWith(s: string, prefix: string) {
    |prefix| <= |s| && s[..|prefix|] == prefix
  }

  predicate EndsWith(s: string, suffix: string) {
    |suffix| <= |s| && s[|s| - |suffix|..] == suffix
  }

  /**
   The capture of the line, if the whole line matches. The capture is
   verbatim: the line is exactly the opening text, the capture and the
   closing text, and the capture holds no line feed.
   */
  function Link(line: string): (r: Option<string>)
    ensures r.Some? ==> line == Wrap(r.value) && NoNewline(r.value)
  {
    if |OPEN| + |CLOSE| <= |line| && StartsWith(line, OPEN) && EndsWith(line, CLOSE) then
      var middle := line[|OPEN|..|line| - |CLOSE|];
      assert line == line[..|OPEN|] + middle + line[|line| - |CLOSE|..];
      if NoNewline(middle) then Some(middle) else None
    else None
  }

  /** Every line of the pattern's shape is matched, and its capture is given back unchanged. */
  lemma LinkOfWrap(u: string)
    requires NoNewline(u)
    ensures Link(Wrap(u)) == Some(u)
  {
  }

  /** `Link` fails exactly on the lines that are not of the pattern's shape. */
  lemma LinkNoneIff(line: string)
    ensures Link(line) == None <==> forall u :: NoNewline(u) ==> line != Wrap(u)
  {
  }

  /**
   A line must begin with the tab and "<string>" and end with "</string>":
   more indentation, or text after the closing tag, is no match.
   */
  lemma LinkNeedsPrefixAndSuffix(line: string)
    requires !StartsWith(line, OPEN) || !EndsWith(line, CLOSE)
    ensures Link(line) == None
  {
  }

  /** An empty value between the tags is a link: the empty string. */
  lemma LinkOfEmptyValue()
    ensures Link("\t<string></string>") == Some("")
  {
    LinkOfWrap("");
    assert Wrap("") == "\t<string></string>";
  }

  /** A second tab of indentation is no match. */
  lemma LinkRejectsExtraIndentation(u: string)
    ensures Link("\t" + Wrap(u)) == None
  {
    var line := "\t" + Wrap(u);
    assert line[1] == '\t' != OPEN[1];
  }

  /** Text after the closing tag is no match. */
  lemma LinkRejectsTrailingText(u: string, c: char)
    ensures Link(Wrap(u) + [c]) == None
  {
    var line := Wrap(u) + [c];
    assert line[|line| - |CLOSE|] == '/' != CLOSE[0];
  }
}
