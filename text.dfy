/**
 * The handful of Python 3 `str` operations the packaging script relies on:
 * `isspace`, `strip`, `startswith`, `split(sep)`, `sep.join` and `splitlines`.
 */
module Text {

  /** Python 3's `str.isspace` for one character. */
  predicate IsSpace(c: char) {
    var n := c as int;
    (9 <= n <= 13) || (0x1C <= n <= 0x20) || n == 0x85 || n == 0xA0 || n == 0x1680
    || (0x2000 <= n <= 0x200A) || n == 0x2028 || n == 0x2029 || n == 0x202F
    || n == 0x205F || n == 0x3000
  }

  /** The line boundaries recognised by Python 3's `str.splitlines`. */
  predicate IsLineBreak(c: char) {
    var n := c as int;
    (10 <= n <= 13) || (0x1C <= n <= 0x1E) || n == 0x85 || n == 0x2028 || n == 0x2029
  }

  predicate StartsWith(s: string, prefix: string) {
    |prefix| <= |s| && s[..|prefix|] == prefix
  }

  predicate AllSpace(s: string) {
    forall k :: 0 <= k < |s| ==> IsSpace(s[k])
  }

  predicate NoLineBreak(s: string) {
    forall k :: 0 <= k < |s| ==> !IsLineBreak(s[k])
  }

  /** No line of the list holds a line boundary. */
  predicate AllWithoutBreaks(lines: seq<string>) {
    forall k :: 0 <= k < |lines| ==> NoLineBreak(lines[k])
  }

  // ---------------------------------------------------------------- strip

  /** `s.lstrip()`: a suffix of `s`; what it drops is whitespace, what it keeps starts with non-space. */
  function LStrip(s: string): (r: string)
    ensures |r| <= |s| && r == s[|s| - |r|..]
    ensures forall k :: 0 <= k < |s| - |r| ==> IsSpace(s[k])
    ensures r != [] ==> !IsSpace(r[0])
  {
    if s != [] && IsSpace(s[0]) then LStrip(s[1..]) else s
  }

  /** `s.rstrip()`: a prefix of `s`; what it drops is whitespace, what it keeps ends with non-space. */
  function RStrip(s: string): (r: string)
    ensures |r| <= |s| && r == s[..|r|]
    ensures forall k :: |r| <= k < |s| ==> IsSpace(s[k])
    ensures r != [] ==> !IsSpace(r[|r| - 1])
  {
    if s != [] && IsSpace(s[|s| - 1]) then RStrip(s[..|s| - 1]) else s
  }

  /** `s.strip()`: empty exactly when `s` is all whitespace, otherwise bounded by non-space. */
  function Strip(s: string): (r: string)
    ensures r == [] <==> AllSpace(s)
    ensures r != [] ==> !IsSpace(r[0]) && !IsSpace(r[|r| - 1])
  {
    var l := LStrip(s);
    var r := RStrip(l);
    assert r == [] ==> AllSpace(s) by {
      if r == [] {
        forall k | 0 <= k < |s| ensures IsSpace(s[k]) {
          if k >= |s| - |l| {
            assert s[k] == l[k - (|s| - |l|)];
          }
        }
      }
    }
    assert r != [] ==> r[0] == l[0];
    r
  }

  /** Stripping a text with non-space ends and trailing whitespace gives back the text. */
  lemma {:induction false} StripPadded(x: string, ws: string)
    requires x != [] && !IsSpace(x[0]) && !IsSpace(x[|x| - 1])
    requires AllSpace(ws)
    ensures Strip(x + ws) == x
  {
    assert LStrip(x + ws) == x + ws;
    RStripPadded(x, ws);
  }

  lemma {:induction false} RStripPadded(x: string, ws: string)
    requires x != [] && !IsSpace(x[|x| - 1])
    requires AllSpace(ws)
    ensures RStrip(x + ws) == x
    decreases |ws|
  {
    if ws == [] {
      assert x + ws == x;
    } else {
      var s := x + ws;
      assert IsSpace(s[|s| - 1]);
      assert s[..|s| - 1] == x + ws[..|ws| - 1];
      RStripPadded(x, ws[..|ws| - 1]);
    }
  }

  // ---------------------------------------------------------- split / join

  /** `sep.join(parts)`. */
  function Join(parts: seq<string>, sep: char): (r: string)
    decreases |parts|
  {
    if |parts| == 0 then ""
    else if |parts| == 1 then parts[0]
    else parts[0] + [sep] + Join(parts[1..], sep)
  }

  /** `s.split(sep)` for a one-character separator: at least one field, none holding the separator. */
  function Split(s: string, sep: char): (fields: seq<string>)
    ensures |fields| >= 1
    ensures forall k :: 0 <= k < |fields| ==> sep !in fields[k]
    decreases |s|
  {
    if s == [] then [""]
    else
      var rest := Split(s[1..], sep);
      if s[0] == sep then [""] + rest
      else [[s[0]] + rest[0]] + rest[1..]
  }

  /** Joining the fields of a split gives the text back. */
  lemma {:induction false} JoinSplit(s: string, sep: char)
    ensures Join(Split(s, sep), sep) == s
    decreases |s|
  {
    if s != [] {
      var rest := Split(s[1..], sep);
      JoinSplit(s[1..], sep);
      if s[0] == sep {
        assert Join([""] + rest, sep) == "" + [sep] + Join(rest, sep);
      } else {
        var fields := [[s[0]] + rest[0]] + rest[1..];
        if |rest| == 1 {
          assert Join(fields, sep) == [s[0]] + rest[0];
        } else {
          assert fields[1..] == rest[1..];
          assert Join(rest, sep) == rest[0] + [sep] + Join(rest[1..], sep);
          assert Join(fields, sep) == [s[0]] + rest[0] + [sep] + Join(rest[1..], sep);
        }
      }
    }
  }

  /** Splitting a join of separator-free fields gives the fields back. */
  lemma {:induction false} SplitJoin(parts: seq<string>, sep: char)
    requires |parts| >= 1
    requires forall k :: 0 <= k < |parts| ==> sep !in parts[k]
    ensures Split(Join(parts, sep), sep) == parts
    decreases |parts|, |parts[0]|
  {
    var p := parts[0];
    if p == [] {
      if |parts| > 1 {
        var s := Join(parts, sep);
        assert s == [sep] + Join(parts[1..], sep);
        assert s[1..] == Join(parts[1..], sep);
        SplitJoin(parts[1..], sep);
        assert [""] + parts[1..] == parts;
      }
    } else {
      var parts' := [p[1..]] + parts[1..];
      var s := Join(parts, sep);
      assert s[0] == p[0] && p[0] != sep;
      assert s[1..] == Join(parts', sep) by {
        if |parts| > 1 {
          assert parts'[1..] == parts[1..];
        }
      }
      SplitJoin(parts', sep);
      assert parts'[0] == p[1..] && parts'[1..] == parts[1..];
      assert [p[0]] + p[1..] == p;
      assert [[p[0]] + p[1..]] + parts[1..] == parts;
    }
  }

  /** A split has one more field than there are separators. */
  lemma {:induction false} SplitCount(s: string, sep: char)
    ensures |Split(s, sep)| == multiset(s)[sep] + 1
    decreases |s|
  {
    if s != [] {
      SplitCount(s[1..], sep);
      assert s == [s[0]] + s[1..];
      assert multiset(s) == multiset([s[0]]) + multiset(s[1..]);
    }
  }

  // ------------------------------------------------------------ splitlines

  /** The first line boundary at or after k, or |s| when there is none. */
  function FirstBreak(s: string, k: nat): (b: nat)
    requires k <= |s|
    ensures k <= b <= |s|
    ensures b < |s| ==> IsLineBreak(s[b])
    ensures forall j :: k <= j < b ==> !IsLineBreak(s[j])
    decreases |s| - k
  {
    if k == |s| || IsLineBreak(s[k]) then k else FirstBreak(s, k + 1)
  }

  /**
   * `s.splitlines()`: the lines between boundaries, `\r\n` counting as one boundary;
   * a final boundary does not open an empty last line. No line holds a boundary.
   */
  function SplitLines(s: string): (lines: seq<string>)
    ensures AllWithoutBreaks(lines)
    decreases |s|
  {
    if s == [] then []
    else
      var b := FirstBreak(s, 0);
      if b == |s| then [s]
      else
        var next := if s[b] == '\r' && b + 1 < |s| && s[b + 1] == '\n' then b + 2 else b + 1;
        [s[..b]] + SplitLines(s[next..])
  }

  /** `'\n'.join(lines)`. */
  function JoinLines(lines: seq<string>): string {
    Join(lines, '\n')
  }

  /**
   * Splitting the `\n`-join of boundary-free lines gives the lines back, except that
   * a last empty line is lost (its `\n` reads as a final boundary).
   */
  lemma {:induction false} SplitJoinLines(lines: seq<string>)
    requires AllWithoutBreaks(lines)
    ensures |lines| > 0 && lines[|lines| - 1] == [] ==> SplitLines(JoinLines(lines)) == lines[..|lines| - 1]
    ensures |lines| == 0 || lines[|lines| - 1] != [] ==> SplitLines(JoinLines(lines)) == lines
    decreases |lines|
  {
    if |lines| == 1 {
      SplitLinesOne(lines[0]);
    } else if |lines| > 1 {
      var l := lines[0];
      assert NoLineBreak(l);
      assert JoinLines(lines) == l + "\n" + JoinLines(lines[1..]);
      SplitLinesCons(l, JoinLines(lines[1..]));
      assert AllWithoutBreaks(lines[1..]) by {
        forall k | 0 <= k < |lines| - 1 ensures NoLineBreak(lines[1..][k]) {
          assert lines[1..][k] == lines[k + 1];
        }
      }
      SplitJoinLines(lines[1..]);
      assert lines == [l] + lines[1..];
      assert lines[1..][..|lines| - 2] == lines[1..|lines| - 1];
    }
  }

  /** Rejoining the lines with `\n` never lengthens the text: each boundary was at least one character. */
  lemma {:induction false} JoinSplitLinesLength(s: string)
    ensures |JoinLines(SplitLines(s))| <= |s|
    decreases |s|
  {
    if s != [] {
      var b := FirstBreak(s, 0);
      if b < |s| {
        var next := if s[b] == '\r' && b + 1 < |s| && s[b + 1] == '\n' then b + 2 else b + 1;
        var rest := SplitLines(s[next..]);
        assert SplitLines(s) == [s[..b]] + rest;
        if |rest| > 0 {
          assert ([s[..b]] + rest)[1..] == rest;
          JoinSplitLinesLength(s[next..]);
        }
      }
    }
  }

  /** Dropping leading lines never lengthens their join. */
  lemma {:induction false} JoinLinesSuffixLength(lines: seq<string>, n: nat)
    requires n <= |lines|
    ensures |JoinLines(lines[n..])| <= |JoinLines(lines)|
    decreases n
  {
    if n > 0 {
      JoinLinesSuffixLength(lines[1..], n - 1);
      assert lines[1..][n - 1..] == lines[n..];
    }
  }

  /** One boundary-free line splits into itself, unless it is empty. */
  lemma SplitLinesOne(l: string)
    requires NoLineBreak(l)
    ensures SplitLines(l) == if l == [] then [] else [l]
  {
    if l != [] {
      FirstBreakNone(l, 0);
    }
  }

  /** A boundary-free line followed by `\n` splits off as the first line. */
  lemma SplitLinesCons(l: string, rest: string)
    requires NoLineBreak(l)
    ensures SplitLines(l + "\n" + rest) == [l] + SplitLines(rest)
  {
    var s := l + "\n" + rest;
    assert forall j :: 0 <= j < |l| ==> s[j] == l[j];
    FirstBreakAt(s, |l|);
    assert s[..|l|] == l;
    assert s[|l| + 1..] == rest;
  }

  /** A leading `\n` opens an empty first line. */
  lemma SplitLinesBlank(rest: string)
    ensures SplitLines("\n" + rest) == [""] + SplitLines(rest)
  {
    SplitLinesCons("", rest);
    assert "" + "\n" + rest == "\n" + rest;
  }

  lemma FirstBreakNone(s: string, k: nat)
    requires k <= |s| && NoLineBreak(s)
    ensures FirstBreak(s, k) == |s|
  {
  }

  lemma FirstBreakAt(s: string, b: nat)
    requires b < |s| && IsLineBreak(s[b])
    requires forall j :: 0 <= j < b ==> !IsLineBreak(s[j])
    ensures FirstBreak(s, 0) == b
  {
  }
}
