/**
 * Building the reStructuredText description: sanitize each Markdown source, convert
 * it with pandoc, put the provenance notice in front of the readme, and append the
 * changelog; then write `README.rst` or remove it.
 */
module Rst {
  import opened Errors
  import opened Text
  import opened Header
  import opened Links
  import opened Files
  import opened Settings

  /** The comment `pypi_prepare_rst` puts in front, with the blank line after it. */
  const Notice: string := ".. This file is automatically generated by setup.py from README.md and CHANGELOG.md.\n\n"

  /** `pypi_prepare_rst`: the notice, then the document untouched. */
  function PypiPrepareRst(rst: string): (r: string)
    ensures StartsWith(r, Notice)
    ensures r[|Notice|..] == rst
  {
    Notice + rst
  }

  /**
   * `pypi_sanitize_markdown`: chop the header, then remove the links. It fails exactly
   * when the header chop does, and never lengthens the document.
   */
  function PypiSanitizeMarkdown(md: string): (r: Result<string>)
    ensures r.Failure? <==> AllNoise(SplitLines(md))
    ensures r.Failure? ==> r.error == EmptyDocument
    ensures r.Success? ==> |r.value| <= |md|
  {
    var chopped :- Chop(md);
    Success(RemoveMarkdownLinks(chopped))
  }

  /**
   * `markdown2rst`: the ImportError when the pandoc binding cannot be imported,
   * otherwise whatever the converter makes of the text, with no other processing.
   */
  function Markdown2Rst(md: string, converter: Option<string -> string>): (r: Result<string>)
    ensures r.Failure? <==> converter.None?
    ensures r.Failure? ==> r.error == ConverterUnavailable
    ensures r.Success? ==> r.value == converter.value(md)
  {
    match converter
    case None => Failure(ConverterUnavailable)
    case Some(convert) => Success(convert(md))
  }

  /** The text `generate_rst` assembles, in the order the script computes it; the first failure wins. */
  function AssembleRst(fs: FileSystem, converter: Option<string -> string>): (r: Result<string>)
    ensures r.Success? ==> StartsWith(r.value, Notice)
  {
    var md :- ReadFile(fs, "README.md");
    var md' :- PypiSanitizeMarkdown(md);
    var rst :- Markdown2Rst(md', converter);
    var head := PypiPrepareRst(rst);
    var changesMd :- ReadFile(fs, "CHANGELOG.md");
    var changesMd' :- PypiSanitizeMarkdown(changesMd);
    // pandoc was imported for the readme already, so this second import cannot fail
    var changesRst := Markdown2Rst(changesMd', converter).value;
    assert (head + "\n" + changesRst)[..|Notice|] == head[..|Notice|];
    Success(head + "\n" + changesRst)
  }

  /** A result together with the file system the call leaves behind. */
  datatype Outcome = Outcome(result: Result<string>, fs: FileSystem)

  /**
   * `generate_rst`: assemble the text, then store it as `README.rst` when `create_rst`
   * is set, or remove `README.rst` otherwise. A failure leaves the files as they were;
   * no file other than `README.rst` ever changes.
   */
  function GenerateRst(fs: FileSystem, cfg: Config, converter: Option<string -> string>): (o: Outcome)
    ensures o.result.Failure? ==> o.fs == fs
    ensures o.result.Success? ==> StartsWith(o.result.value, Notice)
    ensures o.result.Success? && cfg.createRst ==> ReadFile(o.fs, "README.rst") == o.result
    ensures o.result.Success? && !cfg.createRst ==> "README.rst" !in o.fs.files
    ensures forall p :: p != "README.rst" ==> ReadFile(o.fs, p) == ReadFile(fs, p)
    ensures o.fs.dirs == fs.dirs && o.fs.links == fs.links
  {
    match AssembleRst(fs, converter)
    case Failure(e) => Outcome(Failure(e), fs)
    case Success(rst) =>
      var fs' := if cfg.createRst then UpdateFile(fs, "README.rst", rst) else RemoveFile(fs, "README.rst");
      Outcome(Success(rst), fs')
  }

  /**
   * With both sources present and sanitizable and pandoc available, the description is
   * the notice, the converted readme, a newline and the converted changelog.
   */
  lemma GenerateRstContent(fs: FileSystem, cfg: Config, convert: string -> string)
    requires "README.md" in fs.files && !AllNoise(SplitLines(fs.files["README.md"]))
    requires "CHANGELOG.md" in fs.files && !AllNoise(SplitLines(fs.files["CHANGELOG.md"]))
    ensures GenerateRst(fs, cfg, Some(convert)).result == Success(
      Notice + convert(PypiSanitizeMarkdown(fs.files["README.md"]).value)
      + "\n" + convert(PypiSanitizeMarkdown(fs.files["CHANGELOG.md"]).value))
  {
  }

  /** Regeneration fails exactly when a source is missing, a source is all header, or pandoc is missing. */
  lemma GenerateRstFailsIff(fs: FileSystem, cfg: Config, converter: Option<string -> string>)
    ensures GenerateRst(fs, cfg, converter).result.Failure? <==>
      || "README.md" !in fs.files
      || AllNoise(SplitLines(fs.files["README.md"]))
      || converter.None?
      || "CHANGELOG.md" !in fs.files
      || AllNoise(SplitLines(fs.files["CHANGELOG.md"]))
  {
  }

  /**
   * The error reported is the first in the script's order: the readme is read and
   * chopped before pandoc is needed, and pandoc is needed before the changelog is read.
   * A missing converter is not recovered from.
   */
  lemma GenerateRstFirstError(fs: FileSystem, cfg: Config, converter: Option<string -> string>)
    ensures "README.md" !in fs.files ==>
      GenerateRst(fs, cfg, converter).result == Failure(MissingFile("README.md"))
    ensures "README.md" in fs.files && AllNoise(SplitLines(fs.files["README.md"])) ==>
      GenerateRst(fs, cfg, converter).result == Failure(EmptyDocument)
    ensures "README.md" in fs.files && !AllNoise(SplitLines(fs.files["README.md"])) && converter.None? ==>
      GenerateRst(fs, cfg, converter).result == Failure(ConverterUnavailable)
    ensures
      && "README.md" in fs.files && !AllNoise(SplitLines(fs.files["README.md"])) && converter.Some?
      && "CHANGELOG.md" !in fs.files
      ==> GenerateRst(fs, cfg, converter).result == Failure(MissingFile("CHANGELOG.md"))
    ensures
      && "README.md" in fs.files && !AllNoise(SplitLines(fs.files["README.md"])) && converter.Some?
      && "CHANGELOG.md" in fs.files && AllNoise(SplitLines(fs.files["CHANGELOG.md"]))
      ==> GenerateRst(fs, cfg, converter).result == Failure(EmptyDocument)
  {
  }
}
