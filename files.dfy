/**
 * The few file-system facts and effects the script depends on: `os.path.isdir`,
 * `os.path.islink`, `os.path.isfile`, and the helpers `read_file`, `update_file`
 * and `rm_f` of `utils.fs`, over a file system given as a value.
 */
module Files {
  import opened Errors

  /** Regular files with their text, directories, and symbolic links. */
  datatype FileSystem = FileSystem(files: map<string, string>, dirs: set<string>, links: set<string>)

  /** `fs.read_file(path)`: the whole text, or the IOError of a missing file. */
  function ReadFile(fs: FileSystem, path: string): (r: Result<string>)
    ensures r.Failure? <==> path !in fs.files
    ensures r.Failure? ==> r.error == MissingFile(path)
    ensures r.Success? ==> r.value == fs.files[path]
  {
    if path in fs.files then Success(fs.files[path]) else Failure(MissingFile(path))
  }

  /** `fs.update_file(path, content)`: the file holds `content` afterwards; nothing else changes. */
  function UpdateFile(fs: FileSystem, path: string, content: string): (r: FileSystem)
    ensures ReadFile(r, path) == Success(content)
    ensures forall p :: p != path ==> ReadFile(r, p) == ReadFile(fs, p)
    ensures r.dirs == fs.dirs && r.links == fs.links
  {
    fs.(files := fs.files[path := content])
  }

  /** `fs.rm_f(path)`: the file is gone afterwards, whether or not it existed; nothing else changes. */
  function RemoveFile(fs: FileSystem, path: string): (r: FileSystem)
    ensures ReadFile(r, path) == Failure(MissingFile(path))
    ensures forall p :: p != path ==> ReadFile(r, p) == ReadFile(fs, p)
    ensures r.dirs == fs.dirs && r.links == fs.links
  {
    fs.(files := fs.files - {path})
  }
}
