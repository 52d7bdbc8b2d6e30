/**
 * `chop_markdown_header`: drop the leading lines of a Markdown document that are
 * blank or carry a CI badge (`[![`), then rejoin what is left with `\n`.
 */
module Header {
  import opened Errors
  import opened Text

  /** The badge marker, matched against the line as it stands (an indented badge is kept). */
  const BadgeMarker := "[!["

  /** A blank line or a badge line (see `NoiseIsStripOrBadge` for the script's own test). */
  predicate IsHeaderNoise(line: string) {
    AllSpace(line) || StartsWith(line, BadgeMarker)
  }

  /** The loop's test `not line.strip() or line.startswith('[![')` is exactly `IsHeaderNoise`. */
  lemma NoiseIsStripOrBadge(line: string)
    ensures IsHeaderNoise(line) <==> Strip(line) == [] || StartsWith(line, BadgeMarker)
  {
  }

  /** Every line is blank or a badge. */
  predicate AllNoise(lines: seq<string>) {
    forall k :: 0 <= k < |lines| ==> IsHeaderNoise(lines[k])
  }

  /** Line n is the first line that is neither blank nor a badge. */
  predicate FirstContentLine(lines: seq<string>, n: nat) {
    n < |lines| && !IsHeaderNoise(lines[n]) && AllNoise(lines[..n])
  }

  /** The loop of `chop_markdown_header`, written as recursion: what is left when it stops. */
  function DropHeader(lines: seq<string>): (r: Result<seq<string>>)
    ensures r.Failure? ==> r.error == EmptyDocument
    decreases |lines|
  {
    if |lines| == 0 then Failure(EmptyDocument)
    else if IsHeaderNoise(lines[0]) then DropHeader(lines[1..])
    else Success(lines)
  }

  /**
   * What `chop_markdown_header(md)` returns, or the IndexError it raises: it fails
   * exactly when every line is blank or a badge, and never lengthens the document.
   */
  function Chop(md: string): (r: Result<string>)
    ensures r.Failure? <==> AllNoise(SplitLines(md))
    ensures r.Failure? ==> r.error == EmptyDocument
    ensures r.Success? ==> |r.value| <= |md|
  {
    var lines := SplitLines(md);
    DropHeaderFailsIff(lines);
    match DropHeader(lines)
    case Failure(e) => Failure(e)
    case Success(kept) =>
      DropHeaderShrinks(lines);
      JoinSplitLinesLength(md);
      Success(JoinLines(kept))
  }

  /** `chop_markdown_header` as the script runs it: rebind the line list to its tail while the head is noise. */
  method ChopMarkdownHeader(md: string) returns (r: Result<string>)
    ensures r == Chop(md)
  {
    var lines := SplitLines(md);
    while true
      invariant DropHeader(lines) == DropHeader(SplitLines(md))
      decreases |lines|
    {
      if |lines| == 0 {
        return Failure(EmptyDocument);
      }
      if !IsHeaderNoise(lines[0]) {
        break;
      }
      lines := lines[1..];
    }
    r := Success(JoinLines(lines));
  }

  /** The chop fails exactly when every line is noise, the empty document included. */
  lemma {:induction false} DropHeaderFailsIff(lines: seq<string>)
    ensures DropHeader(lines).Failure? <==> AllNoise(lines)
    decreases |lines|
  {
    if |lines| > 0 {
      DropHeaderFailsIff(lines[1..]);
      assert forall k :: 1 <= k < |lines| ==> lines[k] == lines[1..][k - 1];
    }
  }

  /** If line n is the first that is not noise, the chop keeps exactly the lines from n on. */
  lemma {:induction false} DropHeaderKeepsFrom(lines: seq<string>, n: nat)
    requires FirstContentLine(lines, n)
    ensures DropHeader(lines) == Success(lines[n..])
    decreases n
  {
    if n > 0 {
      assert lines[..n][0] == lines[0];
      assert lines[1..][..n - 1] == lines[..n][1..];
      assert lines[1..][n - 1] == lines[n];
      DropHeaderKeepsFrom(lines[1..], n - 1);
      assert lines[1..][n - 1..] == lines[n..];
    }
  }

  /** What the chop keeps is a suffix of the lines that starts at the first line that is not noise. */
  lemma {:induction false} DropHeaderSuffix(lines: seq<string>)
    requires DropHeader(lines).Success?
    ensures exists n: nat :: FirstContentLine(lines, n) && DropHeader(lines).value == lines[n..]
    decreases |lines|
  {
    if IsHeaderNoise(lines[0]) {
      var tail := lines[1..];
      DropHeaderSuffix(tail);
      var n: nat :| FirstContentLine(tail, n) && DropHeader(tail).value == tail[n..];
      assert tail[n..] == lines[n + 1..];
      assert tail[n] == lines[n + 1];
      var head := lines[..n + 1];
      assert AllNoise(head) by {
        forall k | 0 <= k < n + 1 ensures IsHeaderNoise(head[k]) {
          if k > 0 {
            assert head[k] == tail[..n][k - 1];
          }
        }
      }
      assert FirstContentLine(lines, n + 1);
    } else {
      assert lines[0..] == lines;
      assert FirstContentLine(lines, 0);
    }
  }

  /** What the loop keeps never joins to more than all the lines do. */
  lemma DropHeaderShrinks(lines: seq<string>)
    requires DropHeader(lines).Success?
    ensures |JoinLines(DropHeader(lines).value)| <= |JoinLines(lines)|
  {
    DropHeaderSuffix(lines);
    var n: nat :| FirstContentLine(lines, n) && DropHeader(lines).value == lines[n..];
    JoinLinesSuffixLength(lines, n);
  }

  /** If the first line is already content, only the line endings change. */
  lemma ChopNormalisesLineEndings(md: string)
    requires |SplitLines(md)| > 0 && !IsHeaderNoise(SplitLines(md)[0])
    ensures Chop(md) == Success(JoinLines(SplitLines(md)))
  {
    assert SplitLines(md)[..0] == [];
    DropHeaderKeepsFrom(SplitLines(md), 0);
    assert SplitLines(md)[0..] == SplitLines(md);
  }

  /** The first line of a chopped document is neither blank nor a badge. */
  lemma ChopFirstLine(md: string)
    requires Chop(md).Success?
    ensures |SplitLines(Chop(md).value)| > 0 && !IsHeaderNoise(SplitLines(Chop(md).value)[0])
  {
    var lines := SplitLines(md);
    DropHeaderSuffix(lines);
    var n: nat :| FirstContentLine(lines, n) && DropHeader(lines).value == lines[n..];
    var kept := lines[n..];
    SplitJoinLines(kept);
    assert kept[0] == lines[n];
    if |kept| == 1 {
      assert kept[0] != [] by { assert AllSpace([]); }
    }
  }

  /**
   * Chopping again changes nothing, provided the last line kept is not empty.
   * (When it is, `'\n'.join` leaves a final `\n` that the next `splitlines` drops.)
   */
  lemma ChopIdempotent(md: string)
    requires Chop(md).Success?
    requires SplitLines(md)[|SplitLines(md)| - 1] != []
    ensures Chop(Chop(md).value) == Chop(md)
  {
    var lines := SplitLines(md);
    DropHeaderSuffix(lines);
    var n: nat :| FirstContentLine(lines, n) && DropHeader(lines).value == lines[n..];
    var kept := lines[n..];
    assert Chop(md) == Success(JoinLines(kept));
    assert kept[|kept| - 1] == lines[|lines| - 1];
    ChopContentUnchanged(kept);
  }

  /** Boundary-free lines that start with content and do not end empty survive a chop of their join. */
  lemma ChopContentUnchanged(kept: seq<string>)
    requires AllWithoutBreaks(kept) && |kept| > 0 && !IsHeaderNoise(kept[0]) && kept[|kept| - 1] != []
    ensures Chop(JoinLines(kept)) == Success(JoinLines(kept))
  {
    SplitJoinLines(kept);
    assert kept[..0] == [];
    DropHeaderKeepsFrom(kept, 0);
    assert kept[0..] == kept;
  }

  /** A document whose kept lines end in an empty line loses one more `\n` on a second chop. */
  lemma ChopNotIdempotentExample(md: string)
    requires md == "a\n\n"
    ensures Chop(md) == Success("a\n")
    ensures Chop("a\n") == Success("a")
  {
    assert !IsHeaderNoise("a") by { assert !IsSpace("a"[0]); }
    assert Chop(md) == Success("a\n") by {
      assert SplitLines(md) == ["a", ""] by {
        assert SplitLines("\n") == [""] by {
          SplitLinesCons("", "");
          assert "" + "\n" + "" == "\n";
        }
        SplitLinesCons("a", "\n");
        assert "a" + "\n" + "\n" == md;
      }
      assert DropHeader(["a", ""]) == Success(["a", ""]);
      assert JoinLines(["a", ""]) == "a\n";
    }
    assert Chop("a\n") == Success("a") by {
      assert SplitLines("a\n") == ["a"] by {
        SplitLinesCons("a", "");
        assert "a" + "\n" + "" == "a\n";
      }
      assert DropHeader(["a"]) == Success(["a"]);
      assert JoinLines(["a"]) == "a";
    }
  }

  /**
   * Blank lines and a badge line go, and the trailing newline goes with `splitlines`:
   * `"\n\n[![build]]\nReal content\n"` chops to `"Real content"`, for any such badge and content line.
   */
  lemma ChopBlankAndBadge(badge: string, content: string)
    requires StartsWith(badge, BadgeMarker) && NoLineBreak(badge)
    requires NoLineBreak(content) && !IsHeaderNoise(content)
    ensures Chop("\n" + "\n" + badge + "\n" + content + "\n") == Success(content)
  {
    var md := "\n" + "\n" + badge + "\n" + content + "\n";
    assert SplitLines(md) == ["", "", badge, content] by {
      assert NoLineBreak("");
      var s3 := content + "\n";
      SplitLinesCons(content, "");
      assert content + "\n" + "" == s3;
      var s2 := badge + "\n" + s3;
      SplitLinesCons(badge, s3);
      SplitLinesBlank(s2);
      SplitLinesBlank("\n" + s2);
      Regroup(badge, content);
    }
    assert IsHeaderNoise("") by { assert AllSpace(""); }
    assert DropHeader([content]) == Success([content]);
    assert [badge, content][1..] == [content];
    assert DropHeader([badge, content]) == Success([content]);
    assert ["", badge, content][1..] == [badge, content];
    assert DropHeader(["", badge, content]) == Success([content]);
    assert ["", "", badge, content][1..] == ["", badge, content];
    assert DropHeader(["", "", badge, content]) == Success([content]);
  }

  lemma Regroup(a: string, b: string)
    ensures "\n" + "\n" + a + "\n" + b + "\n" == "\n" + ("\n" + (a + "\n" + (b + "\n")))
  {
  }

  /** An indented badge is content: `startswith` looks at the unstripped line. */
  lemma IndentedBadgeKept(md: string)
    requires md == " [![build]]"
    ensures Chop(md) == Success(md)
  {
    FirstBreakNone(md, 0);
    assert !IsHeaderNoise(md) by {
      assert md[..3] != BadgeMarker by { assert md[0] != BadgeMarker[0]; }
      assert !IsSpace(md[1]);
    }
  }
}
