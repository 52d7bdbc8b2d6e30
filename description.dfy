/**
 * `get_rst`: where the long description comes from. Regenerate it when the pandoc
 * checkout and its link are present, else read an existing `README.rst`, else fall
 * back to the raw Markdown of the readme and the changelog.
 */
module Description {
  import opened Errors
  import opened Files
  import opened Settings
  import opened Rst

  /** The three sources of the description, in the order they are tried. */
  datatype Tier = Regenerate | ReadExisting | RawFallback

  /** `os.path.isdir('pyandoc/pandoc') and os.path.islink('pandoc')`, then `os.path.isfile('README.rst')`. */
  function SelectTier(fs: FileSystem): (tier: Tier)
    ensures tier == Regenerate <==> "pyandoc/pandoc" in fs.dirs && "pandoc" in fs.links
    ensures tier == ReadExisting ==> "README.rst" in fs.files
    ensures tier == RawFallback ==> "README.rst" !in fs.files
  {
    if "pyandoc/pandoc" in fs.dirs && "pandoc" in fs.links then Regenerate
    else if "README.rst" in fs.files then ReadExisting
    else RawFallback
  }

  /** The third tier: `''.join([readme, '\n', changelog])`, read in that order. */
  function RawMarkdown(fs: FileSystem): (r: Result<string>)
    ensures r.Success? <==> "README.md" in fs.files && "CHANGELOG.md" in fs.files
    ensures r.Success? ==> r.value == fs.files["README.md"] + "\n" + fs.files["CHANGELOG.md"]
    ensures "README.md" !in fs.files ==> r == Failure(MissingFile("README.md"))
  {
    var readme :- ReadFile(fs, "README.md");
    var changelog :- ReadFile(fs, "CHANGELOG.md");
    Success(readme + "\n" + changelog)
  }

  /**
   * `get_rst` as the script evidently intends it: the second and third tiers read
   * their files with the `read_file` helper of `utils.fs`.
   */
  function GetRst(fs: FileSystem, cfg: Config, converter: Option<string -> string>): (o: Outcome)
    ensures SelectTier(fs) != Regenerate ==> o.fs == fs
  {
    match SelectTier(fs)
    case Regenerate => GenerateRst(fs, cfg, converter)
    case ReadExisting => Outcome(ReadFile(fs, "README.rst"), fs)
    case RawFallback => Outcome(RawMarkdown(fs), fs)
  }

  /**
   * `get_rst` as written: the second and third tiers call a bare `read_file`, a name
   * the script never binds (it imports `fs` from `utils`, not `read_file`), so they
   * raise NameError before any file is read.
   */
  function GetRstAsWritten(fs: FileSystem, cfg: Config, converter: Option<string -> string>): (o: Outcome)
    ensures SelectTier(fs) != Regenerate ==> o == Outcome(Failure(UndefinedName("read_file")), fs)
  {
    match SelectTier(fs)
    case Regenerate => GenerateRst(fs, cfg, converter)
    case ReadExisting => Outcome(Failure(UndefinedName("read_file")), fs)
    case RawFallback => Outcome(Failure(UndefinedName("read_file")), fs)
  }

  /** With the pandoc checkout and link present, the description is regenerated, as written and as intended. */
  lemma GetRstRegenerates(fs: FileSystem, cfg: Config, converter: Option<string -> string>)
    requires "pyandoc/pandoc" in fs.dirs && "pandoc" in fs.links
    ensures GetRst(fs, cfg, converter) == GenerateRst(fs, cfg, converter)
    ensures GetRstAsWritten(fs, cfg, converter) == GetRst(fs, cfg, converter)
  {
  }

  /** Without pandoc, an existing `README.rst` is returned unchanged and the files are left alone; this never fails. */
  lemma GetRstReadsExisting(fs: FileSystem, cfg: Config, converter: Option<string -> string>)
    requires !("pyandoc/pandoc" in fs.dirs && "pandoc" in fs.links)
    requires "README.rst" in fs.files
    ensures GetRst(fs, cfg, converter) == Outcome(Success(fs.files["README.rst"]), fs)
  {
  }

  /**
   * Without pandoc and without `README.rst`, the description is the raw readme, a
   * newline and the raw changelog: no header chop, no link removal, no conversion.
   */
  lemma GetRstRawFallback(fs: FileSystem, cfg: Config, converter: Option<string -> string>)
    requires !("pyandoc/pandoc" in fs.dirs && "pandoc" in fs.links)
    requires "README.rst" !in fs.files
    requires "README.md" in fs.files && "CHANGELOG.md" in fs.files
    ensures GetRst(fs, cfg, converter) == Outcome(Success(fs.files["README.md"] + "\n" + fs.files["CHANGELOG.md"]), fs)
  {
  }

  /** The fallback tier fails only for a missing Markdown source, the readme being read first. */
  lemma GetRstRawFallbackFails(fs: FileSystem, cfg: Config, converter: Option<string -> string>)
    requires SelectTier(fs) == RawFallback
    ensures "README.md" !in fs.files ==> GetRst(fs, cfg, converter).result == Failure(MissingFile("README.md"))
    ensures "README.md" in fs.files && "CHANGELOG.md" !in fs.files ==>
      GetRst(fs, cfg, converter).result == Failure(MissingFile("CHANGELOG.md"))
  {
  }

  /** Only regeneration touches the files, and then only `README.rst`. */
  lemma GetRstOnlyTouchesReadmeRst(fs: FileSystem, cfg: Config, converter: Option<string -> string>, p: string)
    requires p != "README.rst"
    ensures ReadFile(GetRst(fs, cfg, converter).fs, p) == ReadFile(fs, p)
  {
  }

  /**
   * The script as written fails where the intended one succeeds: with `README.rst`
   * present and no pandoc checkout, it raises NameError instead of returning the file.
   */
  lemma ReadFileNameErrorExample(fs: FileSystem, cfg: Config, converter: Option<string -> string>)
    requires fs == FileSystem(map["README.rst" := "Intro"], {}, {})
    ensures GetRstAsWritten(fs, cfg, converter).result == Failure(UndefinedName("read_file"))
    ensures GetRst(fs, cfg, converter).result == Success("Intro")
  {
  }
}
