/** The string built-ins the fact extractor relies on, with Python's meaning:
    `str.strip()`, `str.lstrip(chars)`, `str.rstrip(chars)` and `str.split(sep)`
    for a one-character separator. Strings are sequences of code points. */
module Text {

  /** The code points for which Python's `str.isspace()` holds; `strip()`
      without an argument removes exactly these. */
  const Whitespace: set<char> := {
    '\t', '\n', '\U{B}', '\U{C}', '\r',
    '\U{1C}', '\U{1D}', '\U{1E}', '\U{1F}', ' ',
    '\U{85}', '\U{A0}', '\U{1680}',
    '\U{2000}', '\U{2001}', '\U{2002}', '\U{2003}', '\U{2004}', '\U{2005}',
    '\U{2006}', '\U{2007}', '\U{2008}', '\U{2009}', '\U{200A}',
    '\U{2028}', '\U{2029}', '\U{202F}', '\U{205F}', '\U{3000}'
  }

  /** No visible ASCII character, from '!' to '~', is whitespace. */
  lemma VisibleNotWhitespace(c: char)
    requires '!' <= c <= '~'
    ensures c !in Whitespace
  {
  }

  /** `s` ends with `t`. */
  predicate IsSuffix(t: string, s: string) {
    |t| <= |s| && s[|s| - |t|..] == t
  }

  /** `s.lstrip(cs)`: drops the longest prefix made only of characters in
      `cs` (see `LStripDrops`). */
  function LStrip(s: string, cs: set<char>): (r: string)
    ensures |r| <= |s|
    ensures r == [] || r[0] !in cs
  {
    if s != [] && s[0] in cs then LStrip(s[1..], cs) else s
  }

  /** `s.rstrip(cs)`: drops the longest suffix made only of characters in
      `cs` (see `RStripDrops`). */
  function RStrip(s: string, cs: set<char>): (r: string)
    ensures |r| <= |s|
    ensures r == [] || r[|r| - 1] !in cs
  {
    if s != [] && s[|s| - 1] in cs then RStrip(s[..|s| - 1], cs) else s
  }

  /** `lstrip` keeps a suffix and removes only characters of `cs`. */
  lemma {:induction false} LStripDrops(s: string, cs: set<char>)
    ensures IsSuffix(LStrip(s, cs), s)
    ensures forall k :: 0 <= k < |s| - |LStrip(s, cs)| ==> s[k] in cs
  {
    if s != [] && s[0] in cs {
      LStripDrops(s[1..], cs);
    }
  }

  /** `rstrip` keeps a prefix and removes only characters of `cs`. */
  lemma {:induction false} RStripDrops(s: string, cs: set<char>)
    ensures s[..|RStrip(s, cs)|] == RStrip(s, cs)
    ensures forall k :: |RStrip(s, cs)| <= k < |s| ==> s[k] in cs
  {
    if s != [] && s[|s| - 1] in cs {
      RStripDrops(s[..|s| - 1], cs);
    }
  }

  /** `s.strip()`: removes leading and trailing whitespace; the result
      neither starts nor ends with whitespace (see `StripSlice`). */
  function Strip(s: string): (r: string)
    ensures |r| <= |s|
    ensures r == [] || (r[0] !in Whitespace && r[|r| - 1] !in Whitespace)
  {
    var t := LStrip(s, Whitespace);
    RStripDrops(t, Whitespace);
    RStrip(t, Whitespace)
  }

  /** The number of leading whitespace characters of `s`. */
  function Indent(s: string): nat {
    |s| - |LStrip(s, Whitespace)|
  }

  /** `s.strip()` is the slice of `s` that starts after its `Indent(s)`
      leading whitespace characters, and everything outside that slice is
      whitespace. */
  lemma StripSlice(s: string)
    ensures Indent(s) + |Strip(s)| <= |s| && s[Indent(s)..Indent(s) + |Strip(s)|] == Strip(s)
    ensures forall k :: 0 <= k < Indent(s) ==> s[k] in Whitespace
    ensures forall k :: Indent(s) + |Strip(s)| <= k < |s| ==> s[k] in Whitespace
  {
    var t := LStrip(s, Whitespace);
    var r := RStrip(t, Whitespace);
    LStripDrops(s, Whitespace);
    RStripDrops(t, Whitespace);
    assert s[Indent(s)..] == t;
    assert s[Indent(s)..Indent(s) + |r|] == t[..|r|];
    forall k | Indent(s) + |r| <= k < |s|
      ensures s[k] in Whitespace
    {
      assert s[k] == t[k - Indent(s)];
    }
  }

  /** `sep.join(parts)`. */
  function Join(parts: seq<string>, sep: char): string {
    if parts == [] then []
    else if |parts| == 1 then parts[0]
    else parts[0] + [sep] + Join(parts[1..], sep)
  }

  /** `s.split(sep)`: the pieces between occurrences of `sep`. There is always
      at least one piece, no piece contains `sep`, and joining the pieces with
      `sep` gives back `s`. */
  function Split(s: string, sep: char): (parts: seq<string>)
    ensures |parts| >= 1
    ensures forall p :: p in parts ==> sep !in p
    ensures Join(parts, sep) == s
  {
    if s == [] then [[]]
    else
      var rest := Split(s[1..], sep);
      if s[0] == sep then
        assert Join([[]] + rest, sep) == [sep] + Join(rest, sep);
        [[]] + rest
      else
        var parts := [[s[0]] + rest[0]] + rest[1..];
        assert rest == [rest[0]] + rest[1..];
        assert Join(parts, sep) == [s[0]] + Join(rest, sep) by {
          if |rest| > 1 {
            assert parts[1..] == rest[1..];
          }
        }
        assert s == [s[0]] + s[1..];
        parts
  }

  /** Splitting a string that begins with a separator-free piece `p`. */
  lemma {:induction false} SplitAfterPiece(p: string, t: string, sep: char)
    requires sep !in p
    ensures Split(p + t, sep) == [p + Split(t, sep)[0]] + Split(t, sep)[1..]
    decreases |p|
  {
    if p != [] {
      var r := Split(t, sep);
      assert (p + t)[0] == p[0] && (p + t)[1..] == p[1..] + t;
      SplitAfterPiece(p[1..], t, sep);
      var rest := Split(p[1..] + t, sep);
      assert rest == [p[1..] + r[0]] + r[1..];
      assert Split(p + t, sep) == [[p[0]] + rest[0]] + rest[1..];
      assert rest[0] == p[1..] + r[0] && rest[1..] == r[1..];
      assert [p[0]] + (p[1..] + r[0]) == p + r[0];
    } else {
      var r := Split(t, sep);
      assert p + t == t && p + r[0] == r[0];
      assert r == [r[0]] + r[1..];
    }
  }

  /** Splitting undoes joining: separator-free pieces come back unchanged. */
  lemma {:induction false} SplitJoin(parts: seq<string>, sep: char)
    requires |parts| >= 1
    requires forall p :: p in parts ==> sep !in p
    ensures Split(Join(parts, sep), sep) == parts
  {
    if |parts| == 1 {
      SplitAfterPiece(parts[0], [], sep);
      assert parts[0] + [] == parts[0];
    } else {
      var tail := Join(parts[1..], sep);
      SplitJoin(parts[1..], sep);
      assert Join(parts, sep) == parts[0] + ([sep] + tail);
      SplitAfterPiece(parts[0], [sep] + tail, sep);
      var r := Split([sep] + tail, sep);
      assert ([sep] + tail)[0] == sep && ([sep] + tail)[1..] == tail;
      assert r == [[]] + parts[1..];
      assert parts[0] + r[0] == parts[0];
      assert parts == [parts[0]] + parts[1..];
    }
  }
}
