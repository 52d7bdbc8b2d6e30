/**
 * `remove_markdown_links`: two `re.sub` passes that replace a Markdown link by its text.
 *
 *   Named:  \[((?:[^\]]|\\\])+)\]\[((?:[^\]]|\\\])*)\]   `[text][ref]`  ->  `text`
 *   Inline: \[((?:[^\]]|\\\])+)\]\(((?:[^\]]|\\\])*)\)   `[text](url)`  ->  `text`
 *
 * The matcher below follows Python's backtracking engine step by step: inside a
 * repeated group it first tries one character other than `]`, then the escape `\]`,
 * then leaving the group. The lemmas then say, without reference to that search,
 * which occurrence of the pattern it settles on.
 */
module Links {
  import opened Errors

  /** The two link forms; they differ only in the brackets around the second part. */
  datatype LinkForm = Named | Inline

  function Opener(f: LinkForm): char {
    if f.Named? then '[' else '('
  }

  function Closer(f: LinkForm): char {
    if f.Named? then ']' else ')'
  }

  /** The first alternative of the group, `[^\]]`, matches at p. */
  predicate CharStep(t: string, p: nat) {
    p < |t| && t[p] != ']'
  }

  /** The second alternative of the group, `\\\]`, matches at p. */
  predicate EscapeStep(t: string, p: nat) {
    p + 1 < |t| && t[p] == '\\' && t[p + 1] == ']'
  }

  // ------------------------------------------------------------- the search

  /**
   * `((?:[^\]]|\\\])*)` followed by the closing bracket, entered at p:
   * the end of the match, or None when every way of matching fails.
   */
  function TargetLoop(t: string, p: nat, f: LinkForm): (r: Option<nat>)
    requires p <= |t|
    ensures r.Some? ==> p < r.value <= |t| && t[r.value - 1] == Closer(f)
    decreases |t| - p
  {
    var viaChar := if CharStep(t, p) then TargetLoop(t, p + 1, f) else None;
    if viaChar.Some? then viaChar
    else
      var viaEscape := if EscapeStep(t, p) then TargetLoop(t, p + 2, f) else None;
      if viaEscape.Some? then viaEscape
      else if p < |t| && t[p] == Closer(f) then Some(p + 1)
      else None
  }

  /**
   * `((?:[^\]]|\\\])+)` entered at p (the text began at start), then `]`, the opening
   * bracket and the target: the end of the text and the end of the match.
   */
  function TextLoop(t: string, start: nat, p: nat, f: LinkForm): (r: Option<(nat, nat)>)
    requires start <= p <= |t|
    ensures r.Some? ==> start < r.value.0 && r.value.0 + 2 < r.value.1 <= |t|
    decreases |t| - p
  {
    var viaChar := if CharStep(t, p) then TextLoop(t, start, p + 1, f) else None;
    if viaChar.Some? then viaChar
    else
      var viaEscape := if EscapeStep(t, p) then TextLoop(t, start, p + 2, f) else None;
      if viaEscape.Some? then viaEscape
      else TextExit(t, start, p, f)
  }

  /** Leaving the text's group at p: at least one step taken, then `]`, the opening bracket and the target. */
  function TextExit(t: string, start: nat, p: nat, f: LinkForm): (r: Option<(nat, nat)>)
    requires start <= p <= |t|
    ensures r.Some? ==> start < r.value.0 && r.value.0 + 2 < r.value.1 <= |t|
    ensures r.Some? ==> r.value.0 == p && t[p] == ']' && t[p + 1] == Opener(f)
    ensures r.Some? ==> TargetLoop(t, p + 2, f) == Some(r.value.1)
  {
    if start < p && p + 1 < |t| && t[p] == ']' && t[p + 1] == Opener(f) then
      match TargetLoop(t, p + 2, f)
      case Some(e) => Some((p, e))
      case None => None
    else None
  }

  /** The whole pattern tried at position i: the end of the link text and the end of the match. */
  function MatchAt(t: string, i: nat, f: LinkForm): (r: Option<(nat, nat)>)
    requires i <= |t|
    ensures r.Some? ==> i + 1 < r.value.0 && r.value.0 + 2 < r.value.1 <= |t|
  {
    if i < |t| && t[i] == '[' then TextLoop(t, i + 1, i + 1, f) else None
  }

  /**
   * `re.sub(pattern, '\\1', t[i..])`: scan left to right; where the pattern matches,
   * emit the link text and resume after the match, otherwise copy one character.
   */
  function ReplaceFrom(t: string, i: nat, f: LinkForm): (r: string)
    requires i <= |t|
    ensures |r| <= |t| - i
    decreases |t| - i
  {
    if i == |t| then ""
    else
      match MatchAt(t, i, f)
      case Some((g, e)) => t[i + 1..g] + ReplaceFrom(t, e, f)
      case None => [t[i]] + ReplaceFrom(t, i + 1, f)
  }

  /** One `re.sub` pass over the whole text; it never lengthens the text. */
  function RemoveLinks(t: string, f: LinkForm): (r: string)
    ensures |r| <= |t|
  {
    ReplaceFrom(t, 0, f)
  }

  /** `remove_markdown_links`: named links first, then inline links; never longer than the input. */
  function RemoveMarkdownLinks(md: string): (r: string)
    ensures |r| <= |md|
  {
    RemoveLinks(RemoveLinks(md, Named), Inline)
  }

  // ------------------------------------------------ what the pattern matches

  /**
   * `(?:[^\]]|\\\])*` matches t[a..b] exactly: every `]` in it directly follows a `\`
   * that is itself inside.
   */
  ghost predicate GroupSpan(t: string, a: nat, b: nat) {
    a <= b <= |t| && forall k :: a <= k < b && t[k] == ']' ==> a < k && t[k - 1] == '\\'
  }

  /** The group runs from p up to the `]` at g, and the opening bracket of the second part follows. */
  ghost predicate TextEnd(t: string, p: nat, g: nat, f: LinkForm) {
    g + 1 < |t| && GroupSpan(t, p, g) && t[g] == ']' && t[g + 1] == Opener(f)
  }

  /** The second part runs from p up to the closing bracket at q. */
  ghost predicate TargetEnd(t: string, p: nat, q: nat, f: LinkForm) {
    q < |t| && GroupSpan(t, p, q) && t[q] == Closer(f)
  }

  /** t[i..q+1] is an occurrence of the pattern whose text is t[i+1..g]. */
  ghost predicate LinkOccurrence(t: string, i: nat, g: nat, q: nat, f: LinkForm) {
    i < |t| && t[i] == '[' && i + 1 < g && TextEnd(t, i + 1, g, f) && TargetEnd(t, g + 2, q, f)
  }

  /** No occurrence of the pattern starts at or after i. */
  ghost predicate NoLinkFrom(t: string, i: nat, f: LinkForm) {
    forall j: nat, g: nat, q: nat :: i <= j ==> !LinkOccurrence(t, j, g, q, f)
  }

  /** A group match extended on the left by one alternative is a group match. */
  lemma GroupSpanExtend(t: string, p: nat, b: nat)
    requires p < b <= |t|
    requires (CharStep(t, p) && GroupSpan(t, p + 1, b)) || (EscapeStep(t, p) && p + 2 <= b && GroupSpan(t, p + 2, b))
    ensures GroupSpan(t, p, b)
  {
  }

  /** A non-empty group match starts with one of the two alternatives. */
  lemma GroupSpanSplit(t: string, p: nat, b: nat)
    requires p < b && GroupSpan(t, p, b)
    ensures (CharStep(t, p) && GroupSpan(t, p + 1, b)) || (EscapeStep(t, p) && p + 2 <= b && GroupSpan(t, p + 2, b))
  {
    assert t[p] != ']';
    if !(CharStep(t, p) && GroupSpan(t, p + 1, b)) {
      var k :| p + 1 <= k < b && t[k] == ']' && !(p + 1 < k && t[k - 1] == '\\');
      assert k == p + 1;
    }
  }

  // -------------------------------------------------- the target's search

  /** A found target really is a run of the group followed by the closing bracket. */
  lemma {:induction false} TargetLoopSound(t: string, p: nat, f: LinkForm)
    requires p <= |t| && TargetLoop(t, p, f).Some?
    ensures TargetEnd(t, p, TargetLoop(t, p, f).value - 1, f)
    decreases |t| - p
  {
    var e := TargetLoop(t, p, f).value;
    if CharStep(t, p) && TargetLoop(t, p + 1, f).Some? {
      TargetLoopSound(t, p + 1, f);
      GroupSpanExtend(t, p, e - 1);
    } else if EscapeStep(t, p) && TargetLoop(t, p + 2, f).Some? {
      TargetLoopSound(t, p + 2, f);
      GroupSpanExtend(t, p, e - 1);
    } else {
      assert e == p + 1;
    }
  }

  /** Named form: the target found ends at the first possible closing `]`, and one is found whenever one exists. */
  lemma {:induction false} TargetLoopLeast(t: string, p: nat, q: nat)
    requires p <= q && TargetEnd(t, p, q, Named)
    ensures TargetLoop(t, p, Named).Some? && TargetLoop(t, p, Named).value <= q + 1
    decreases q - p
  {
    if q > p {
      GroupSpanSplit(t, p, q);
      if CharStep(t, p) && GroupSpan(t, p + 1, q) {
        TargetLoopLeast(t, p + 1, q);
      } else {
        assert EscapeStep(t, p) && p + 2 <= q;
        assert TargetLoop(t, p + 1, Named) == Some(p + 2);
      }
    }
  }

  /** Inline form: the greedy group runs to the last possible closing `)`, and one is found whenever one exists. */
  lemma {:induction false} TargetLoopGreatest(t: string, p: nat, q: nat)
    requires p <= q && TargetEnd(t, p, q, Inline)
    ensures TargetLoop(t, p, Inline).Some? && q < TargetLoop(t, p, Inline).value
    decreases q - p
  {
    if q == p {
      assert CharStep(t, p) && !EscapeStep(t, p);
    } else {
      GroupSpanSplit(t, p, q);
      if CharStep(t, p) && GroupSpan(t, p + 1, q) {
        TargetLoopGreatest(t, p + 1, q);
      } else {
        assert EscapeStep(t, p) && p + 2 <= q;
        assert TargetLoop(t, p + 1, Inline) == None;
        TargetLoopGreatest(t, p + 2, q);
      }
    }
  }

  // ---------------------------------------------------- the text's search

  /** From p on, the text runs to the `]` at r.0, and the second part then ends at r.1. */
  ghost predicate TextFound(t: string, p: nat, r: (nat, nat), f: LinkForm) {
    p <= r.0 && TextEnd(t, p, r.0, f) && TargetLoop(t, r.0 + 2, f) == Some(r.1)
  }

  /** A found text really is a run of the group, closed by `]` and the opening bracket, with a target after it. */
  lemma {:induction false} TextLoopSound(t: string, start: nat, p: nat, f: LinkForm)
    requires start <= p <= |t| && TextLoop(t, start, p, f).Some?
    ensures TextFound(t, p, TextLoop(t, start, p, f).value, f)
    decreases |t| - p
  {
    var r := TextLoop(t, start, p, f).value;
    if CharStep(t, p) && TextLoop(t, start, p + 1, f).Some? {
      assert TextLoop(t, start, p + 1, f).value == r;
      TextLoopSound(t, start, p + 1, f);
      assert TextFound(t, p + 1, r, f);
      GroupSpanExtend(t, p, r.0);
    } else if EscapeStep(t, p) && TextLoop(t, start, p + 2, f).Some? {
      assert TextLoop(t, start, p + 2, f).value == r;
      TextLoopSound(t, start, p + 2, f);
      assert TextFound(t, p + 2, r, f);
      GroupSpanExtend(t, p, r.0);
    } else {
      assert TextExit(t, start, p, f) == Some(r);
      assert r.0 == p && GroupSpan(t, p, p);
    }
  }

  /** The text found ends at the first `]` that can close it, and one is found whenever one exists. */
  lemma {:induction false} TextLoopLeast(t: string, start: nat, p: nat, g: nat, f: LinkForm)
    requires start <= p <= g && TextEnd(t, p, g, f) && start < g
    requires TargetLoop(t, g + 2, f).Some?
    ensures TextLoop(t, start, p, f).Some? && TextLoop(t, start, p, f).value.0 <= g
    decreases g - p
  {
    if g > p {
      GroupSpanSplit(t, p, g);
      if CharStep(t, p) && GroupSpan(t, p + 1, g) {
        TextLoopLeast(t, start, p + 1, g, f);
      } else {
        assert EscapeStep(t, p) && p + 2 <= g;
        if TextLoop(t, start, p + 1, f).None? {
          TextLoopLeast(t, start, p + 2, g, f);
        }
      }
    }
  }

  // ------------------------------------------------------- the whole match

  /** What MatchAt finds is an occurrence of the pattern. */
  lemma MatchAtSound(t: string, i: nat, f: LinkForm)
    requires i <= |t| && MatchAt(t, i, f).Some?
    ensures LinkOccurrence(t, i, MatchAt(t, i, f).value.0, MatchAt(t, i, f).value.1 - 1, f)
  {
    var r := MatchAt(t, i, f).value;
    assert i < |t| && t[i] == '[';
    assert TextLoop(t, i + 1, i + 1, f) == Some(r);
    TextLoopSound(t, i + 1, i + 1, f);
    TargetLoopSound(t, r.0 + 2, f);
  }

  /**
   * Wherever the pattern occurs at i, MatchAt finds a match, and its text is the
   * shortest that can be closed (the search tries the earliest `]` first).
   */
  lemma MatchAtLeftmostText(t: string, i: nat, g: nat, q: nat, f: LinkForm)
    requires LinkOccurrence(t, i, g, q, f)
    ensures MatchAt(t, i, f).Some? && MatchAt(t, i, f).value.0 <= g
  {
    if f.Named? {
      TargetLoopLeast(t, g + 2, q);
    } else {
      TargetLoopGreatest(t, g + 2, q);
    }
    TextLoopLeast(t, i + 1, i + 1, g, f);
  }

  /**
   * For the text it settles on, a named link's reference stops at the first `]`,
   * while an inline link's url runs to the last `)` it can reach.
   */
  lemma MatchAtTarget(t: string, i: nat, q: nat, f: LinkForm)
    requires i <= |t| && MatchAt(t, i, f).Some?
    requires LinkOccurrence(t, i, MatchAt(t, i, f).value.0, q, f)
    ensures f.Named? ==> MatchAt(t, i, f).value.1 <= q + 1
    ensures f.Inline? ==> q + 1 <= MatchAt(t, i, f).value.1
  {
    var (g, e) := MatchAt(t, i, f).value;
    TextLoopSound(t, i + 1, i + 1, f);
    if f.Named? {
      TargetLoopLeast(t, g + 2, q);
    } else {
      TargetLoopGreatest(t, g + 2, q);
    }
  }

  // ------------------------------------------------------ the substitution

  /** Text holding no occurrence of the pattern from i on is left as it is. */
  lemma {:induction false} ReplaceFromNoLink(t: string, i: nat, f: LinkForm)
    requires i <= |t|
    requires NoLinkFrom(t, i, f)
    ensures ReplaceFrom(t, i, f) == t[i..]
    decreases |t| - i
  {
    if i < |t| {
      if MatchAt(t, i, f).Some? {
        MatchAtSound(t, i, f);
        assert false;
      }
      ReplaceFromNoLink(t, i + 1, f);
      assert t[i..] == [t[i]] + t[i + 1..];
    }
  }

  /** Text without `[` holds no link, so neither pass changes it. */
  lemma RemoveMarkdownLinksNoBracket(md: string)
    requires '[' !in md
    ensures RemoveMarkdownLinks(md) == md
  {
    forall f: LinkForm | true ensures RemoveLinks(md, f) == md {
      ReplaceFromNoLink(md, 0, f);
      assert md[0..] == md;
    }
  }

  /** Every character of the result comes from the input: the passes only delete. */
  lemma {:induction false} ReplaceFromDeletesOnly(t: string, i: nat, f: LinkForm)
    requires i <= |t|
    ensures multiset(ReplaceFrom(t, i, f)) <= multiset(t[i..])
    decreases |t| - i
  {
    if i < |t| {
      var m := MatchAt(t, i, f);
      if m.Some? {
        var g, e := m.value.0, m.value.1;
        var rest := ReplaceFrom(t, e, f);
        assert ReplaceFrom(t, i, f) == t[i + 1..g] + rest;
        assert multiset(ReplaceFrom(t, i, f)) == multiset(t[i + 1..g]) + multiset(rest);
        ReplaceFromDeletesOnly(t, e, f);
        SlicesWithin(t, i, g, e);
      } else {
        var rest := ReplaceFrom(t, i + 1, f);
        assert ReplaceFrom(t, i, f) == [t[i]] + rest;
        assert multiset(ReplaceFrom(t, i, f)) == multiset([t[i]]) + multiset(rest);
        ReplaceFromDeletesOnly(t, i + 1, f);
        assert t[i..] == [t[i]] + t[i + 1..];
        assert multiset(t[i..]) == multiset([t[i]]) + multiset(t[i + 1..]);
      }
    }
  }

  /** The text between `[` and the end of the text, and what follows the match, lie within the rest. */
  lemma SlicesWithin(t: string, i: nat, g: nat, e: nat)
    requires i < g <= e <= |t|
    ensures multiset(t[i + 1..g]) + multiset(t[e..]) <= multiset(t[i..])
  {
    assert t[i..] == t[i..i + 1] + t[i + 1..g] + t[g..e] + t[e..];
  }

  // ------------------------------------------------------- whole links

  /** `[text]` then the second part: the link as the pattern sees it. */
  function LinkText(text: string, target: string, f: LinkForm): string {
    "[" + text + "]" + [Opener(f)] + target + [Closer(f)]
  }

  /**
   * A lone link is replaced by its text. The target may hold the closing bracket of
   * an inline link: `[a](b) and (c)` is one link whose url is `b) and (c`.
   */
  lemma {:induction false} LinkReplaced(text: string, target: string, f: LinkForm)
    requires text != [] && ']' !in text && ']' !in target
    ensures RemoveLinks(LinkText(text, target, f), f) == text
  {
    var t := LinkText(text, target, f);
    var g := |text| + 1;
    var q := |t| - 1;
    assert forall k :: 1 <= k < g ==> t[k] == text[k - 1];
    assert forall k :: g + 2 <= k < q ==> t[k] == target[k - g - 2];
    assert t[g] == ']' && t[g + 1] == Opener(f) && t[q] == Closer(f);
    assert GroupSpan(t, 1, g);
    assert GroupSpan(t, g + 2, q);
    assert LinkOccurrence(t, 0, g, q, f);
    MatchAtLeftmostText(t, 0, g, q, f);
    MatchAtSound(t, 0, f);
    var r := MatchAt(t, 0, f).value;
    assert r.0 == g;
    MatchAtTarget(t, 0, q, f);
    assert r.1 == |t|;
    assert t[1..g] == text;
  }

  /**
   * A named link, as `[hello][world]` or `[hello][]`, comes out as its text, even a text
   * holding `[` such as `a[b`: without `]` it cannot start an inline link.
   */
  lemma RemoveNamedLink(text: string, ref: string)
    requires text != [] && ']' !in text && ']' !in ref
    ensures RemoveMarkdownLinks(LinkText(text, ref, Named)) == text
  {
    LinkReplaced(text, ref, Named);
    assert forall k :: 0 <= k < |text| ==> text[k] != ']';
    assert NoLinkFrom(text, 0, Inline);
    ReplaceFromNoLink(text, 0, Inline);
    assert text[0..] == text;
  }

  /** An inline link, as `[example.com](http://www.example.com)`, comes out as its text; the named pass leaves it alone. */
  lemma RemoveInlineLink(text: string, url: string)
    requires text != [] && ']' !in text && ']' !in url
    ensures RemoveMarkdownLinks(LinkText(text, url, Inline)) == text
  {
    var t := LinkText(text, url, Inline);
    var g := |text| + 1;
    assert forall k :: 1 <= k < g ==> t[k] == text[k - 1];
    assert forall k :: g + 1 <= k < |t| ==> t[k] != ']';
    assert NoLinkFrom(t, 0, Named);
    ReplaceFromNoLink(t, 0, Named);
    assert t[0..] == t;
    LinkReplaced(text, url, Inline);
  }

  /** Every character of the result comes from the input: the two passes only delete. */
  lemma RemoveMarkdownLinksDeletesOnly(md: string)
    ensures multiset(RemoveMarkdownLinks(md)) <= multiset(md)
  {
    var named := RemoveLinks(md, Named);
    ReplaceFromDeletesOnly(md, 0, Named);
    ReplaceFromDeletesOnly(named, 0, Inline);
    assert md[0..] == md && named[0..] == named;
  }

  /** The inline pattern is greedy: `[a](b) and (c)` is one link, url `b) and (c`. */
  lemma GreedyInlineExample(md: string)
    requires md == "[a](b) and (c)"
    ensures RemoveMarkdownLinks(md) == "a"
  {
    RemoveInlineLink("a", "b) and (c");
    assert LinkText("a", "b) and (c", Inline) == md;
  }

  /** An escaped `\]` stays inside the text: `[a\]b][c]` comes out as `a\]b`. */
  lemma EscapedBracketExample(md: string)
    requires md == "[a\\]b][c]"
    ensures RemoveMarkdownLinks(md) == "a\\]b"
  {
    assert GroupSpan(md, 1, 5) && GroupSpan(md, 7, 8);
    assert LinkOccurrence(md, 0, 5, 8, Named);
    MatchAtLeftmostText(md, 0, 5, 8, Named);
    MatchAtSound(md, 0, Named);
    var r := MatchAt(md, 0, Named).value;
    assert r.0 == 5;
    MatchAtTarget(md, 0, 8, Named);
    assert RemoveLinks(md, Named) == md[1..5];
    var text := md[1..5];
    assert text == "a\\]b";
    assert NoLinkFrom(text, 0, Inline);
    ReplaceFromNoLink(text, 0, Inline);
    assert text[0..] == text;
  }
}
