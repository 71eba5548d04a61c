/** A read-only snapshot of the project tree, standing in for the `fs` and
    `path` calls of the build configuration. Paths are lists of segments
    relative to the project root. */
module FileSystem {
  import opened Text

  type Path = seq<string>

  /** One entry of `readdirSync(dir, { withFileTypes: true })`. */
  datatype Dirent = Dirent(name: string, isDirectory: bool)

  /** Regular files with their contents, and directories with their listings. */
  datatype Snapshot = Snapshot(files: map<Path, string>, dirs: map<Path, seq<Dirent>>)

  /** `fs.existsSync(p)`: true for a file and for a directory alike. */
  predicate Exists(fs: Snapshot, p: Path)
  {
    p in fs.files || p in fs.dirs
  }

  /** `p` is a directory and not a regular file, so reading it throws. */
  predicate IsDirectory(fs: Snapshot, p: Path)
  {
    p in fs.dirs && p !in fs.files
  }

  /** A snapshot as the operating system reports it: every listed name is a
      single path segment. */
  ghost predicate WellFormed(fs: Snapshot)
  {
    forall d :: d in fs.dirs ==> forall e :: e in fs.dirs[d] ==> IsSegment(e.name)
  }

  /** The path as a `/`-separated string. */
  function Render(p: Path): string
  {
    Join(p, "/")
  }

  /** Rendering loses nothing: the segments can be read back from the string. */
  lemma RenderSplit(p: Path)
    requires |p| > 0
    requires forall k :: 0 <= k < |p| ==> '/' !in p[k]
    ensures Split(Render(p), '/') == p
  {
    SplitJoin(p, '/');
  }
}
