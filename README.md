# webloc-to-markdown, modelled in Dafny

The program walks the directories named on its command line. It picks out the
macOS `.webloc` bookmark files and reads the single URL from each. For every
file it writes one Markdown list entry `* [STEM]( URL )` to standard output,
or the warning `warning: failed to parse PATH` to standard error.

The model covers the whole pipeline in `src/main.rs`:

- `extractor.dfy` (module `Extractor`) states the fixed line pattern
  `^\t<string>(.*)</string>$` of `Extractor::link` directly. A line matches when it
  is a tab and `<string>`, then a capture with no line feed, then `</string>`,
  and nothing else.
- `read_link.dfy` (module `LinkReader`) holds `read_link`: the captures of all
  lines in file order, and the "exactly one capture" rule.
- `std_path.dfy` (module `StdPath`) holds Rust's `Path::file_name`,
  `Path::file_stem` and `Path::extension` for Unix paths. That includes std's
  `rsplit_file_at_dot` rule: a name whose only dot comes first has no extension.
- `os_str.dfy` (module `OsStrings`) models platform strings as sequences of
  units. Each unit is a decoded character or one invalid UTF-8 sequence as
  `Utf8Chunks` reports it, with its bytes; `OsStrings.OsUnit` limits an invalid
  sequence to one to three non-ASCII bytes.
  It also holds `to_str` and the lossy `display`.
- `discovery.dfy` (module `Discovery`) holds `is_webloc`, `find_weblocs` as a
  filter over the items a walk yields, and the `flat_map` over the roots.
- `reporter.dfy` (module `Reporter`) holds `get_stem`, the two line formats and
  `main` as the method `Run`. `Run` has a loop that appends one line per path
  to one of two output sequences.
- `options.dfy` holds the `Option` type.

Things the model takes as parameters:

- The directory walk is a function from a root argument to the items it yields,
  in walk order. An item is an entry or a traversal error.
- The file system is a function from a path to what opening and reading it gives.
  That is either an open failure, or a sequence of lines, each decoded or unreadable.

Two behaviours of the program are worth stating outright:

- `is_webloc` looks only at the extension, so a directory named `X.webloc` is
  discovered like a file (`Discovery.FindWeblocsTakesDirectories`).
- `File::open` on a directory succeeds on Unix. The model leaves what opening
  gives to its file-system parameter.

## Model

| member | source | states |
|---|---|---|
| `Extractor.Link` | src/main.rs:18-26 | a capture is verbatim: the line is exactly tab, `<string>`, the capture and `</string>`, and the capture holds no line feed |
| `Extractor.LinkOfWrap` | src/main.rs:18 | every line of that shape is matched, and its capture is the original text (round trip) |
| `Extractor.LinkNoneIff` | src/main.rs:18-26 | no link exactly when the line is not of the pattern's shape for any capture |
| `Extractor.LinkNeedsPrefixAndSuffix` | src/main.rs:18 | a line that does not start with tab and `<string>`, or does not end with `</string>`, gives no link |
| `Extractor.LinkOfEmptyValue` | src/main.rs:18 | `\t<string></string>` matches with the empty capture |
| `Extractor.LinkRejectsExtraIndentation` | src/main.rs:18 | a second leading tab means no match, whatever the value between the tags |
| `Extractor.LinkRejectsTrailingText` | src/main.rs:18 | any character after the closing tag means no match |
| `LinkReader.FilterMap` | src/main.rs:49-53 | `lines().flatten().filter_map(f)` collects at most one value per line |
| `LinkReader.FilterMapValues` | src/main.rs:49-53 | every collected value is the value of some readable line of the file |
| `LinkReader.FilterMapAppend` | src/main.rs:49-53 | the values of a concatenation of lines are those of each part, in file order |
| `LinkReader.FilterMapEmpty` | src/main.rs:49-53 | nothing is collected exactly when no readable line gives a value |
| `LinkReader.FilterMapSingleton` | src/main.rs:49-55 | exactly the one value u is collected exactly when one line gives a value, and that value is u |
| `LinkReader.Captures` | src/main.rs:49-53 | the captures of a file are at most one per line |
| `LinkReader.ReadLink` | src/main.rs:45-61 | a file that cannot be opened has no link; a link never holds a line feed |
| `LinkReader.CapturesAppend` | src/main.rs:49-53 | captures are collected in file order: those of a concatenation are the concatenation of the captures |
| `LinkReader.ReadLinkUnique` | src/main.rs:54-55 | when exactly one line matches, its capture is the link |
| `LinkReader.ReadLinkSome` | src/main.rs:45-61 | a link is only given for an opened file with exactly one matching line, and it is that line's capture |
| `LinkReader.ReadLinkNoMatch` | src/main.rs:54-56 | a file with no matching line has no link |
| `LinkReader.ReadLinkAmbiguous` | src/main.rs:54-56 | a file with two matching lines has no link, even when the captures are equal |
| `LinkReader.ReadLinkSkipsUndecodable` | src/main.rs:50-51 | an unreadable line is skipped and does not change the result |
| `StdPath.Split` | src/main.rs:32 | splitting a path at '/' gives at least one piece, and no piece holds a '/' |
| `StdPath.SplitJoin` | src/main.rs:32 | joining the pieces with '/' gives the path back |
| `StdPath.Kept` | src/main.rs:32 | the components kept are pieces of the path, non-empty and not "." |
| `StdPath.FileName` | src/main.rs:32 | a file name is a normal component: non-empty, not "." or "..", no '/' |
| `StdPath.FileNameOfJoin` | src/main.rs:42 | the file name of `dir/name` is `name`, for any normal name |
| `StdPath.FileNameOfName` | src/main.rs:32 | the file name of a bare normal name is that name |
| `StdPath.FileNameTrailingSlash` | src/main.rs:32 | a trailing '/' does not change the file name |
| `StdPath.FileNameNone` | src/main.rs:32 | `..`, `/` and the empty path have no file name |
| `StdPath.LastIndexOf` | src/main.rs:32 | the position found holds the character and no later position does; none found means the character is absent |
| `StdPath.RSplitParts` | src/main.rs:32 | std's cut at the last dot: with an extension the name is stem + "." + extension, the stem non-empty and the extension dot-free; otherwise the stem is the whole name |
| `StdPath.RSplitDotted` | src/main.rs:32 | a name that is a non-empty stem, a dot and a dot-free extension, other than "..", is cut at that dot |
| `StdPath.StemExtensionRoundTrip` | src/main.rs:64 | a stem exists exactly when a file name does; with an extension, the name is stem + "." + extension with no dot in the extension; without one, the stem is the whole name; a stem is never empty |
| `StdPath.DottedName` | src/main.rs:64 | a name made of a non-empty stem, a dot and a dot-free extension has exactly that stem and extension |
| `StdPath.HiddenName` | src/main.rs:64 | a name whose only dot comes first has no extension, and its stem is the whole name |
| `StdPath.RSplitFileAtDot` | src/main.rs:32 | std's cut of a file name at its last dot always gives at least one side, and when it gives both, the name is the part before, a dot and the part after |
| `StdPath.FileStem` | src/main.rs:64 | a path has a file stem exactly when it has a file name |
| `StdPath.Extension` | src/main.rs:32 | a path with an extension has a stem, and its file name is the stem, a dot and the extension |
| `OsStrings.ToStrRoundTrip` | src/main.rs:65 | decoding a platform string made from text gives the text back; a decoded string is the whole platform string |
| `OsStrings.DisplayFromStr` | src/main.rs:78 | a UTF-8 path is displayed as its own text |
| `OsStrings.ToStr` | src/main.rs:65 | `to_str` gives text exactly when every unit of the platform string is a character |
| `OsStrings.Display` | src/main.rs:78 | `display` shows one character per unit; a UTF-8 path is shown as its own text (`OsStrings.DisplayFromStr`) |
| `Discovery.IsWebloc` | src/main.rs:29-35 | an entry is a webloc when the extension of its path is exactly "webloc", whatever its kind; such a path's file name is its stem followed by ".webloc" |
| `Discovery.IsWeblocIff` | src/main.rs:29-35 | an entry is a webloc exactly when its file name ends in ".webloc" after a non-empty part (case-sensitive) |
| `Discovery.WeblocPath` | src/main.rs:29-35 | `dir/stem.webloc` is a webloc whatever its kind, with file name `stem.webloc` and stem `stem` |
| `Discovery.WeblocNameExamples` | src/main.rs:33 | `News.webloc` qualifies; `X.WEBLOC`, `.webloc` and `a.webloc.bak` do not |
| `Discovery.Select` | src/main.rs:40-42 | `flatten().filter(keep).map(path)` yields at most one path per walked item |
| `Discovery.SelectAppend` | src/main.rs:40-42 | selection distributes over concatenation, so walk order is kept |
| `Discovery.SelectMember` | src/main.rs:40-42 | a path is selected exactly when some walked entry with that path passes the test |
| `Discovery.SelectPosition` | src/main.rs:40-42 | a passing entry is selected right after the selections of the items before it |
| `Discovery.FindWeblocs` | src/main.rs:37-43 | discovery yields at most one path per walked item |
| `Discovery.FindWeblocsAppend` | src/main.rs:37-43 | discovery distributes over concatenation, so walk order is kept |
| `Discovery.FindWeblocsMember` | src/main.rs:37-43 | a path is discovered exactly when some walked entry with that path is a webloc |
| `Discovery.FindWeblocsSound` | src/main.rs:41 | every discovered path has the extension "webloc" |
| `Discovery.FindWeblocsPosition` | src/main.rs:37-43 | a webloc entry is discovered at the position given by the number of weblocs before it |
| `Discovery.FindWeblocsOrder` | src/main.rs:37-43 | a webloc entry earlier in the walk is discovered before any later one |
| `Discovery.FindWeblocsDropsErrors` | src/main.rs:40 | a traversal error is dropped and changes nothing else |
| `Discovery.FindWeblocsTakesDirectories` | src/main.rs:29-35 | a directory named like a webloc is discovered |
| `Discovery.Discover` | src/main.rs:70 | `flat_map(find_weblocs)`: nothing for no roots, and the first root's discoveries come first |
| `Discovery.DiscoverAppend` | src/main.rs:70 | the roots' discoveries are concatenated in argument order |
| `Discovery.DiscoverMember` | src/main.rs:70 | a path is discovered exactly when the walk of one of the roots discovers it |
| `Discovery.DiscoverSound` | src/main.rs:70 | every discovered path, from any root, has the extension "webloc" |
| `Reporter.GetStemOfWebloc` | src/main.rs:63-67 | the stem of `dir/stem.webloc` is `stem`, dots inside it included |
| `Reporter.GetStemOfName` | src/main.rs:63-67 | the stem of the bare name `stem.webloc` is `stem` |
| `Reporter.GetStemExample` | src/main.rs:63-67 | `Example.webloc` gives `Example` |
| `Reporter.GetStemOfDiscovered` | src/main.rs:63-67 | for a discovered path, the stem is the file name without ".webloc" when that part is UTF-8, and `(non_utf8_file_name)` otherwise |
| `Reporter.GetStem` | src/main.rs:63-67 | `get_stem`: the placeholder when the path has no stem or the stem is not UTF-8; otherwise text that encodes back to exactly the stem |
| `Reporter.EntryLine` | src/main.rs:75 | the line `* [STEM]( URL )`: eight characters around the stem and the link, both recoverable from their places in the line |
| `Reporter.WarningLine` | src/main.rs:78 | the line `warning: failed to parse PATH`: a 25-character prefix followed by the path as displayed |
| `Reporter.LineFor` | src/main.rs:73-80 | a path's line goes to standard output exactly when `read_link` gave a link, otherwise to standard error |
| `Reporter.Transcript` | src/main.rs:71-81 | one line per path, in path order: the list entry on standard output for a link, the warning on standard error otherwise |
| `Reporter.Written` | src/main.rs:75-78 | the lines one stream receives, at most one per line of the transcript |
| `Reporter.WrittenPartition` | src/main.rs:73-80 | the lines on standard output plus those on standard error are as many as the lines written |
| `Reporter.WrittenAppend` | src/main.rs:72 | what a stream receives for two runs of paths is what it receives for each, in order |
| `Reporter.WrittenPosition` | src/main.rs:72-81 | each stream receives its lines in the order they were written |
| `Reporter.TranscriptAppend` | src/main.rs:71-72 | the lines for a concatenation of paths are the lines for each part, in order |
| `Reporter.ReportedAt` | src/main.rs:72-81 | the path at position k gets its entry (with its stem and link) on standard output, or its warning on standard error, right after the lines its stream got for the paths before it |
| `Reporter.Run` | src/main.rs:69-81 | the streams `main` writes are those of the transcript of the discovered paths; standard output and standard error together hold one line per discovered path |
| `Reporter.AllParsed` | src/main.rs:73-76 | when every file yields a link, standard error stays empty and every path gets a list entry |
| `Reporter.OneGoodFile` | src/main.rs:69-81 | a root with one `stem.webloc` holding one pattern line among others gives exactly `* [stem]( url )` and no warning |
| `Reporter.OneBrokenFile` | src/main.rs:69-81 | a root with one webloc holding no pattern line gives no entry and exactly one warning naming it |
| `Reporter.TwoRoots` | src/main.rs:70-72 | with two roots, the first root's lines come before the second's on each stream |
| `Reporter.MissingRoot` | src/main.rs:70 | a root whose walk yields only an error writes nothing to either stream |

## Left out

- The directory walk (`WalkDir`, src/main.rs:38-39) is file-system I/O. The model
  takes what the walk yields per root as a parameter, in walk order. So it proves
  nothing about recursion depth or entry order.
- `File::open` and `BufReader::lines` (src/main.rs:47-51) are I/O. The model takes
  what each path gives as a parameter: an open failure, or decoded lines with
  line terminators already removed, plus unreadable lines.
- A reader that keeps failing is not modelled. `lines()` then yields an error
  forever, and `flatten()` never ends. On Unix this happens for a directory named
  `X.webloc`, which opens successfully. The model's lines are finite, so this
  hang is outside the model.
- The `regex` crate is foreign code. `Extractor::new` builds the same fixed pattern
  on every call with no effect beyond that (src/main.rs:16-19). The model states
  the pattern directly and does not model a regex engine.
- Platform strings cover Unix paths only. A unit is a character or one invalid
  UTF-8 sequence as `Utf8Chunks` reports it (at most three bytes), and `display`
  shows each such sequence as one U+FFFD. How `Utf8Chunks` cuts a byte string
  into these units is not modelled: the model starts from the units. Different
  unit sequences can stand for the same bytes (two adjacent invalid units that
  `Utf8Chunks` would report as one, or invalid units whose bytes together form a
  character). On such a sequence `to_str` gives nothing where Rust gives text,
  and the file-system parameter may treat the two spellings as two paths. Windows
  prefixes and separators are not modelled.
- `env::args` (src/main.rs:70) panics on an argument that is not Unicode. The
  model takes the arguments as strings, so that panic is not modelled.
- The actual writes to standard output and standard error (src/main.rs:75, 78)
  are process I/O, and so is the exit status, which is 0 whenever the run
  completes (a panic ends it with status 101). The model
  gives each stream as the sequence of lines written to it, without the line
  terminator that `println!` and `eprintln!` add.
- A failed write (for example to a closed pipe) makes `println!` or `eprintln!`
  (src/main.rs:75, 78) panic and stops the loop, so the remaining paths get no
  line. The model's streams always receive every line.
