/**
 A platform string (an `OsStr`) as the path functions see it: a sequence of
 units, each either a decoded character or one invalid UTF-8 sequence (at most
 three bytes) as `Utf8Chunks` reports it, kept with its bytes so that paths
 differing only there stay different. `OsUnit` holds an invalid sequence to one
 to three non-ASCII bytes. The separators the program splits on, '/' and '.',
 are ASCII, so they never occur inside a multi-byte character or an invalid
 sequence, and splitting the units is splitting the bytes.
 */
module OsStrings {
  import opened Options

  datatype OsChar = Valid(c: char) | Invalid(bytes: seq<bv8>)

  /**
   A unit that can occur: any character, or one to three bytes that are all
   outside ASCII (an invalid sequence never holds an ASCII byte, since every
   ASCII byte is a character of its own).
   */
  predicate WellFormed(u: OsChar) {
    u.Valid? || (1 <= |u.bytes| <= 3 && forall k :: 0 <= k < |u.bytes| ==> u.bytes[k] >= 0x80)
  }

  type OsUnit = u: OsChar | WellFormed(u) witness Valid('a')

  type OsStr = seq<OsUnit>

  /** The platform string of a Rust `String` (always valid UTF-8). */
  function FromStr(s: string): (o: OsStr)
    ensures |o| == |s|
  {
    seq(|s|, i requires 0 <= i < |s| => Valid(s[i]))
  }

  predicate IsUtf8(o: OsStr) {
    forall i :: 0 <= i < |o| ==> o[i].Valid?
  }

  /** `OsStr::to_str`: the text when every unit decodes, otherwise nothing. */
  function ToStr(o: OsStr): (r: Option<string>)
    ensures r.Some? <==> IsUtf8(o)
  {
    if IsUtf8(o) then Some(seq(|o|, i requires 0 <= i < |o| && IsUtf8(o) => o[i].c)) else None
  }

  /** `Path::display`: each invalid sequence is shown as one U+FFFD. */
  function Display(o: OsStr): (r: string)
    ensures |r| == |o|
  {
    seq(|o|, i requires 0 <= i < |o| => if o[i].Valid? then o[i].c else '\U{FFFD}')
  }

  lemma FromStrAppend(a: string, b: string)
    ensures FromStr(a + b) == FromStr(a) + FromStr(b)
  {
  }

  /** Decoding undoes `FromStr`, and a decoded string is the whole of its platform string. */
  lemma ToStrRoundTrip(s: string, o: OsStr)
    ensures ToStr(FromStr(s)) == Some(s)
    ensures ToStr(o) == Some(s) ==> FromStr(s) == o
  {
    assert ToStr(FromStr(s)).value == s;
  }

  lemma DisplayFromStr(s: string)
    ensures Display(FromStr(s)) == s
  {
  }
}
