# intervaltree packaging script — verified model

The packaging script `setup.py` of the intervaltree library does two things before it
hands over to setuptools:

- it settles on the **version**: either the configured `target_version`, or, for a
  development upload (`PYPI=pypitest`), a PEP 440 beta pre-release `<release>b<build>`
  derived from the output of `git describe`;
- it builds the **long description** for the package index from `README.md` and
  `CHANGELOG.md`. It chops the badge header, removes Markdown links, converts with
  pandoc, puts a provenance notice in front and appends the changelog. When pandoc
  is not checked out it is meant to fall back to an existing `README.rst` or to the
  raw Markdown; as written, that fallback raises NameError (see "## Findings").

This project models those pieces in Dafny and proves what they do:

| file | module | models |
|---|---|---|
| `errors.dfy` | `Errors` | the exceptions the script lets escape, as a `Result`; `Option` |
| `text.dfy` | `Text` | the Python 3 `str` operations used: `isspace`, `strip`, `startswith`, `split('-')`, `'\n'.join`, `splitlines` |
| `version.dfy` | `Settings`, `Version` | `target_version` / `create_rst`; `development_version_number` and the `is_dev_version` choice |
| `header.dfy` | `Header` | `chop_markdown_header`, as a loop (`ChopMarkdownHeader`) proved equal to a recursive specification (`Chop`) |
| `links.dfy` | `Links` | `remove_markdown_links`: the two `re.sub` passes, with the backtracking search of Python's regex engine |
| `files.dfy` | `Files` | the file-system queries and the `read_file` / `update_file` / `rm_f` helpers, over a file system given as a value |
| `rst.dfy` | `Rst` | `pypi_prepare_rst`, `pypi_sanitize_markdown`, `markdown2rst`, `generate_rst` |
| `description.dfy` | `Description` | `get_rst`: the three-tier choice, as written and as evidently intended |

The regular expressions of `remove_markdown_links` are modelled twice:

- as the search Python performs: inside `(?:[^\]]|\\\])` it tries a character other
  than `]` first, then the escape `\]`, then leaving the group (`TargetLoop`,
  `TextLoop`, `MatchAt`, `ReplaceFrom`);
- declaratively, as the spans the pattern can match (`GroupSpan`, `LinkOccurrence`).

The lemmas connect the two:

- every match found is an occurrence of the pattern;
- wherever an occurrence exists, one is found;
- the link text chosen is the shortest that can be closed;
- a named link's reference stops at the first `]`;
- an inline link's url runs to the last `)` it can reach, so `[a](b) and (c)` becomes `a`.

## Behaviour worth knowing

- `chop_markdown_header` drops the trailing newline: `"\n\n[![build]]\nReal content\n"`
  becomes `"Real content"`, because `splitlines` and `'\n'.join` lose it
  (`Header.ChopBlankAndBadge`).
- A missing pandoc binding is not recovered from. `markdown2rst` re-raises the
  ImportError, and neither `generate_rst` nor `get_rst` catches it
  (`Rst.GenerateRstFirstError`).
- An empty `git describe` output is a malformed version (the unpacking of one field
  into three raises ValueError), not a process error (`Version.DevelopmentVersionFailsIff`).

## Model

| member | source | states |
|---|---|---|
| `Text.Strip` | setup.py:164 | `strip()` is empty exactly when the text is all whitespace (Python 3 `isspace`), and otherwise begins and ends with non-space |
| `Text.StripPadded` | setup.py:45 | stripping a text with non-space ends and trailing whitespace (a newline from `git describe`) gives the text back |
| `Text.Split` | setup.py:46 | `split('-')` yields at least one field and no field holds the separator |
| `Text.JoinSplit` | setup.py:46 | joining the fields of a split with the separator gives the text back |
| `Text.SplitJoin` | setup.py:46 | splitting a join of separator-free fields gives the fields back |
| `Text.SplitCount` | setup.py:46 | a split has exactly one field more than the text has separators |
| `Text.SplitLines` | setup.py:163 | no line produced by `splitlines()` holds a line boundary |
| `Text.SplitJoinLines` | setup.py:163-166 | `splitlines` undoes `'\n'.join` on boundary-free lines, except that a last empty line is lost |
| `Text.JoinSplitLinesLength` | setup.py:163-166 | `'\n'.join(s.splitlines())` is never longer than `s` |
| `Text.JoinLinesSuffixLength` | setup.py:165-166 | dropping leading lines never lengthens their join |
| `Version.DevelopmentVersion` | setup.py:43-48 | a successful development version holds no `-`, and the only failure is a malformed describe line (ValueError) |
| `Version.DevelopmentVersionOfDescribe` | setup.py:45-47 | a describe line `release-build-commitish` with any trailing whitespace gives `release` + `b` + `build` |
| `Version.DevelopmentVersionFailsIff` | setup.py:45-46 | resolution fails (ValueError) exactly when the stripped describe line does not hold exactly two dashes |
| `Version.DevelopmentVersionSucceeds` | setup.py:45-47 | every success comes from three dash-free fields of the stripped line and keeps the first two around `b` |
| `Version.TwoFieldsMalformed` | setup.py:46 | a describe line of two fields, `release-build`, is malformed |
| `Version.DevelopmentVersionExample` | setup.py:43-48 | `1.2.3-4-gabc1234\n` gives `1.2.3b4` |
| `Version.MalformedVersionExample` | setup.py:46 | `1.2.3-4` is malformed |
| `Version.ResolveVersion` | setup.py:50-54 | the version can fail only in development mode, and then only as a malformed describe line |
| `Version.DevModeReadsOnlyPypi` | setup.py:50 | whether this is a development upload depends on the `PYPI` variable alone |
| `Version.ReleaseVersionIsTarget` | setup.py:50-54 | outside development mode the version is `target_version`, whatever `git describe` says |
| `Version.DevVersionFromDescribe` | setup.py:50-52 | with `PYPI=pypitest`, for any environment and describe line, the version is `development_version_number()` of that line, and it fails exactly when the stripped line does not hold two dashes: there is no fallback to `target_version` |
| `Version.ShippedReleaseVersion` | setup.py:39-54 | with the configuration as shipped, a release upload is version `2.1.1` |
| `Header.NoiseIsStripOrBadge` | setup.py:164 | a line is dropped exactly when its `strip()` is empty or it starts with `[![` |
| `Header.DropHeader` | setup.py:164 | the header loop can only fail by running out of lines (IndexError) |
| `Header.ChopMarkdownHeader` | setup.py:155-167 | the loop that rebinds the line list to its tail returns exactly the specification `Chop` |
| `Header.DropHeaderFailsIff` | setup.py:164 | the loop fails exactly when every line is blank or a badge, the empty document included |
| `Header.DropHeaderKeepsFrom` | setup.py:164-165 | if line n is the first that is neither blank nor a badge, exactly the lines from n on are kept |
| `Header.DropHeaderSuffix` | setup.py:163-166 | what is kept is the suffix of the lines starting at the first line that is neither blank nor a badge; every dropped line is noise |
| `Header.DropHeaderShrinks` | setup.py:164-165 | the kept lines never join to more text than all the lines |
| `Header.Chop` | setup.py:155-167 | the chop fails (IndexError) exactly when every line of `md.splitlines()` is blank or a badge, and a chopped document is never longer than the input |
| `Header.ChopNormalisesLineEndings` | setup.py:163-167 | when the first line is already content, the result is `'\n'.join(md.splitlines())` |
| `Header.ChopFirstLine` | setup.py:164-166 | the first line of a chopped document is neither blank nor a badge |
| `Header.ChopIdempotent` | setup.py:163-167 | chopping twice equals chopping once when the last input line is not empty |
| `Header.ChopNotIdempotentExample` | setup.py:163-166 | `a\n\n` chops to `a\n`, which chops to `a`: without that proviso the chop is not idempotent |
| `Header.ChopBlankAndBadge` | setup.py:163-167 | blank lines and a badge line before a content line go, and so does the final newline |
| `Header.IndentedBadgeKept` | setup.py:164 | an indented badge line is content, because `startswith` looks at the unstripped line |
| `Links.TargetLoop` | setup.py:175 | a match of the reference or url part ends after its start, on the closing bracket |
| `Links.TextLoop` | setup.py:174-175 | a match of the text part has a non-empty text and a second part that ends within the string (what it matches is stated by `Links.TextLoopSound`) |
| `Links.TextExit` | setup.py:174-175 | leaving the text's group needs at least one repetition, happens at `]` followed by the opening bracket of the second part, and is followed by exactly the second part `TargetLoop` finds |
| `Links.MatchAt` | setup.py:173-178 | a match at `i` has a non-empty text and ends within the string |
| `Links.ReplaceFrom` | setup.py:173-178 | the substitution from `i` on is at most as long as the rest of the text |
| `Links.RemoveLinks` | setup.py:173-178 | one `re.sub` pass never lengthens the text |
| `Links.RemoveMarkdownLinks` | setup.py:170-188 | `remove_markdown_links` never lengthens the text |
| `Links.GroupSpanExtend` | setup.py:174 | a character other than `]`, or the escape `\]`, in front of a group match is a group match |
| `Links.GroupSpanSplit` | setup.py:174 | a non-empty group match begins with one of the two alternatives |
| `Links.TargetLoopSound` | setup.py:175 | the reference or url found is a group match followed by the closing bracket |
| `Links.TargetLoopLeast` | setup.py:175 | a named link's reference ends at the first `]` that can close it, and is found whenever one exists |
| `Links.TargetLoopGreatest` | setup.py:183 | the greedy url runs to the last `)` it can reach, and is found whenever one exists |
| `Links.TextLoopSound` | setup.py:174 | the text found is a group match closed by `]` and the opening bracket, with a second part after it |
| `Links.TextLoopLeast` | setup.py:174 | the text ends at the first `]` after which the rest of the pattern matches, and is found whenever one exists |
| `Links.MatchAtSound` | setup.py:173-186 | every match found is an occurrence of the pattern |
| `Links.MatchAtLeftmostText` | setup.py:173-186 | wherever the pattern occurs, a match is found, with the shortest closable text |
| `Links.MatchAtTarget` | setup.py:173-186 | for that text, a reference stops at the first `]` and a url runs to the last `)` |
| `Links.ReplaceFromNoLink` | setup.py:173-178 | text holding no occurrence of the pattern is left unchanged |
| `Links.RemoveMarkdownLinksNoBracket` | setup.py:170-188 | a text without `[` comes out unchanged |
| `Links.ReplaceFromDeletesOnly` | setup.py:173-178 | one pass only deletes characters: the multiset of the result is within that of the input |
| `Links.RemoveMarkdownLinksDeletesOnly` | setup.py:170-188 | both passes together only delete characters |
| `Links.LinkReplaced` | setup.py:173-186 | a lone link with non-empty text is replaced by its text, even when an inline url holds `)` |
| `Links.RemoveNamedLink` | setup.py:172-178 | a named link whose text holds no `]` (it may hold `[`) and whose reference holds no `]` comes out as its text, as `[hello][world]` and `[hello][]` come out as `hello` |
| `Links.RemoveInlineLink` | setup.py:180-186 | `[hello](http://example.com)` comes out as `hello`; the named pass leaves it alone |
| `Links.GreedyInlineExample` | setup.py:181-186 | `[a](b) and (c)` comes out as `a` |
| `Links.EscapedBracketExample` | setup.py:174-175 | an escaped `\]` stays in the text: `[a\]b][c]` comes out as `a\]b` |
| `Files.ReadFile` | setup.py:99 | reading gives the file's text, or a missing-file error exactly when it does not exist |
| `Files.UpdateFile` | setup.py:111 | after the update the file holds the new text and no other file changes |
| `Files.RemoveFile` | setup.py:113 | after `rm_f` the file is gone, whether or not it existed, and no other file changes |
| `Rst.PypiPrepareRst` | setup.py:144-152 | the result starts with the provenance notice and continues with the document untouched |
| `Rst.PypiSanitizeMarkdown` | setup.py:136-141 | sanitizing fails (IndexError) exactly when every line is blank or a badge, and never lengthens the text |
| `Rst.Markdown2Rst` | setup.py:118-132 | the conversion fails (ImportError) exactly when pandoc is missing; otherwise it is the converter's output with no other processing |
| `Rst.AssembleRst` | setup.py:99-107 | an assembled description starts with the provenance notice |
| `Rst.GenerateRst` | setup.py:97-115 | on success `README.rst` holds the description when `create_rst` is set and is removed otherwise; a failure changes no file; no other file ever changes |
| `Rst.GenerateRstContent` | setup.py:99-107 | the description is notice + converted readme + `\n` + converted changelog |
| `Rst.GenerateRstFailsIff` | setup.py:99-106 | regeneration fails exactly when a source is missing or all header, or pandoc is missing |
| `Rst.GenerateRstFirstError` | setup.py:99-106 | the error raised is the first in the script's order: missing readme, all-header readme, missing pandoc (not recovered from), missing changelog, all-header changelog |
| `Description.SelectTier` | setup.py:79-85 | regeneration is chosen exactly when the pandoc checkout and its link exist; an existing `README.rst` is read only when it exists, and the raw Markdown is used only when it does not |
| `Description.RawMarkdown` | setup.py:88-93 | the raw description succeeds exactly when both Markdown files exist, is readme + `\n` + changelog, and a missing readme is reported first |
| `Description.GetRst` | setup.py:78-93 | only the regenerating tier touches the file system |
| `Description.GetRstAsWritten` | setup.py:78-93 | as written, the second and third tiers raise NameError and touch nothing |
| `Description.GetRstRegenerates` | setup.py:79-81 | with the pandoc checkout and link present the description is regenerated, as written and as intended |
| `Description.GetRstReadsExisting` | setup.py:82-84 | otherwise an existing `README.rst` is returned unchanged and no file changes |
| `Description.GetRstRawFallback` | setup.py:85-93 | otherwise the description is the raw readme, `\n` and the raw changelog, unsanitized and unconverted |
| `Description.GetRstRawFallbackFails` | setup.py:88-92 | the raw fallback fails only for a missing Markdown source, the readme first |
| `Description.GetRstOnlyTouchesReadmeRst` | setup.py:78-115 | no file other than `README.rst` is ever changed |
| `Description.ReadFileNameErrorExample` | setup.py:82-84 | with `README.rst` present and no pandoc, the script as written raises NameError where the intended one returns the file |

## Left out

- `git describe` is not run: its output is the `describe` parameter of `Version.DevelopmentVersion`. Under Python 3, `communicate()` returns bytes, and bytes do not split on the str `'-'`; the model treats the output as text, as under Python 2.
- Under Python 2, `str.strip` and `str.isspace` on byte strings see only ASCII whitespace; `Text.IsSpace` is the Python 3 (Unicode) definition.
- `Text.SplitLines` splits at every Python 3 `str.splitlines` boundary (`\n`, `\r`, `\r\n`, `\v`, `\f`, `\x1c`-`\x1e`, `\x85`, U+2028, U+2029); a Python 2 byte string splits only at `\n`, `\r` and `\r\n`, so under Python 2 a document holding the other boundaries is split into fewer lines.
- pandoc is not modelled: the converter is a parameter (`string -> string`) and `None` stands for the failing `import pandoc`. A conversion failure inside pandoc and the `PANDOC_PATH` setting are out of scope.
- `Rst.Markdown2Rst`: the script imports pandoc afresh on each call; the model assumes a second import succeeds when the first did.
- The file system is a value: regular files with their text, directories and links. Encodings, permissions, I/O errors other than a missing file, and the internals of `utils.fs` are not modelled; `utils/fs.py` is not part of this model.
- The `print` and `warn` messages (setup.py:56-61, 80, 83, 86-87) are informational and not modelled.
- The `PyTest` command class (setup.py:67-75) and the `setup(...)` call with its metadata (setup.py:192-232) are framework plumbing with no logic to model.
- `Header.ChopIdempotent`: stated only for documents whose last line is not empty. Without that proviso the chop is not idempotent (`Header.ChopNotIdempotentExample`): `splitlines` drops the final empty line that `'\n'.join` leaves behind as a trailing `\n`.

## Findings

| source | as written | input that shows it | evidently intended | confidence | as-written member | corrected member |
|---|---|---|---|---|---|---|
| setup.py:84 | the second and third tiers of `get_rst` call a bare `read_file` (setup.py:84, 89, 91), a name the script never imports or defines (it imports `fs` from `utils`) | no `pyandoc/pandoc` checkout and a `README.rst` present (`Description.ReadFileNameErrorExample`): NameError instead of the file's text; likewise the raw fallback | read the files with `fs.read_file`, as `generate_rst` does at setup.py:99 | high; not executed | `Description.GetRstAsWritten` | `Description.GetRst` |
