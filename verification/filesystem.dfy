/** An abstract filesystem: a set of directories and a map from file paths to
    their bytes, with the three `std::fs` operations the object store uses. */
module FileSystem {
  import opened Bytes
  import opened Results

  /** A path as its sequence of components, relative to the working directory;
      `[]` is the working directory itself. */
  type Path = seq<string>

  /** The `std::io::ErrorKind`s the operations below can report. */
  datatype IoError = NotFound | AlreadyExists | NotADirectory | IsADirectory

  datatype FileSystem = FileSystem(dirs: set<Path>, files: map<Path, seq<Byte>>)

  function Parent(p: Path): Path
    requires p != []
  {
    p[..|p| - 1]
  }

  /** A filesystem a process can observe: the working directory exists, nothing
      is both a directory and a file, and everything but the root sits in a
      directory. */
  ghost predicate Valid(fs: FileSystem) {
    && [] in fs.dirs
    && (forall p :: p in fs.dirs ==> p !in fs.files)
    && (forall p :: p in fs.dirs && p != [] ==> Parent(p) in fs.dirs)
    && (forall p :: p in fs.files ==> p != [] && Parent(p) in fs.dirs)
  }

  /** `Path::is_dir`. */
  predicate IsDir(fs: FileSystem, p: Path) {
    p in fs.dirs
  }

  /** Why the parent of `p` cannot hold a new entry, if it cannot. */
  function ParentError(fs: FileSystem, p: Path): (r: Option<IoError>)
    ensures r.None? <==> p != [] && Parent(p) in fs.dirs
  {
    if p == [] then Some(NotFound)
    else if Parent(p) in fs.dirs then None
    else if Parent(p) in fs.files then Some(NotADirectory)
    else Some(NotFound)
  }

  /** `std::fs::create_dir`: creates one directory whose parent must already
      exist; fails if anything already exists at `p`. */
  function CreateDir(fs: FileSystem, p: Path): (r: Result<FileSystem, IoError>)
    ensures r.Ok? <==> p !in fs.dirs && p !in fs.files && p != [] && Parent(p) in fs.dirs
    ensures r.Ok? ==> r.value.dirs == fs.dirs + {p} && r.value.files == fs.files
    ensures Valid(fs) && r.Ok? ==> Valid(r.value)
  {
    if p in fs.dirs || p in fs.files then Err(AlreadyExists)
    else match ParentError(fs, p)
      case Some(e) => Err(e)
      case None => Ok(fs.(dirs := fs.dirs + {p}))
  }

  /** `File::create`: opens `p` for writing, creating it empty or truncating
      what is there; fails on a directory or a missing parent. */
  function CreateFile(fs: FileSystem, p: Path): (r: Result<FileSystem, IoError>)
    ensures r.Ok? <==> p !in fs.dirs && p != [] && Parent(p) in fs.dirs
    ensures r.Ok? ==> r.value.dirs == fs.dirs && r.value.files == fs.files[p := []]
    ensures Valid(fs) && r.Ok? ==> Valid(r.value)
  {
    if p in fs.dirs then Err(IsADirectory)
    else match ParentError(fs, p)
      case Some(e) => Err(e)
      case None => Ok(fs.(files := fs.files[p := []]))
  }

  /** `write_all` on a handle opened by `File::create`: appends the bytes at the
      handle's position, the end of what it has written so far. */
  function WriteAll(fs: FileSystem, p: Path, data: seq<Byte>): (r: FileSystem)
    requires p in fs.files
    ensures r.dirs == fs.dirs
    ensures r.files.Keys == fs.files.Keys
    ensures |r.files[p]| == |fs.files[p]| + |data|
    ensures r.files[p][..|fs.files[p]|] == fs.files[p] && r.files[p][|fs.files[p]|..] == data
    ensures forall q :: q in fs.files && q != p ==> r.files[q] == fs.files[q]
  {
    fs.(files := fs.files[p := fs.files[p] + data])
  }

  /** `File::open` followed by `read_to_end`: the whole content of a file. */
  function ReadFile(fs: FileSystem, p: Path): (r: Result<seq<Byte>, IoError>)
    ensures r.Ok? <==> p in fs.files
    ensures r.Ok? ==> r.value == fs.files[p]
    ensures r.Err? && p in fs.dirs ==> r.error == IsADirectory
  {
    if p in fs.files then Ok(fs.files[p])
    else if p in fs.dirs then Err(IsADirectory)
    else Err(NotFound)
  }
}
