/** Windows path handling (`os.path.join`, `os.path.abspath`) for the path
    shapes the application builds, and the part of the file system the
    scans look at. */
module Paths {

  /** A fully qualified Windows path: a drive letter, a colon and a
      separator (`C:\...`). */
  predicate IsAbsolute(p: string) {
    |p| >= 3 && p[1] == ':' && (p[2] == '\\' || p[2] == '/')
  }

  predicate EndsWithSeparator(p: string) {
    p != [] && (p[|p| - 1] == '\\' || p[|p| - 1] == '/')
  }

  /** `os.path.join(dir, name)`: an absolute `name` replaces `dir`;
      otherwise one separator goes between them. */
  function Join(dir: string, name: string): string {
    if IsAbsolute(name) || dir == [] then name
    else if EndsWithSeparator(dir) then dir + name
    else dir + "\\" + name
  }

  /** `os.path.abspath(p)` with `cwd` the process's working directory
      (normalisation of `.` and `..` components is not modelled). */
  function AbsPath(cwd: string, p: string): string {
    if IsAbsolute(p) then p else Join(cwd, p)
  }

  /** A path resolved against an absolute working directory is absolute. */
  lemma AbsPathIsAbsolute(cwd: string, p: string)
    requires IsAbsolute(cwd)
    ensures IsAbsolute(AbsPath(cwd, p))
  {
    if !IsAbsolute(p) {
      var r := Join(cwd, p);
      assert r[..|cwd|] == cwd;
      assert r[1] == cwd[1] && r[2] == cwd[2];
    }
  }

  /** Joining a directory with an already resolved path and resolving it
      again gives back that path: `abspath(join(d, abspath(join(d, n))))`
      equals `abspath(join(d, n))`. */
  lemma ReResolveIsIdentity(cwd: string, dir: string, name: string)
    requires IsAbsolute(cwd)
    ensures var v := AbsPath(cwd, Join(dir, name)); AbsPath(cwd, Join(dir, v)) == v
  {
    AbsPathIsAbsolute(cwd, Join(dir, name));
  }

  const CursorLibPath := "CursorsLib"
  const AnimePath := Join(CursorLibPath, "Anime")
  const ClassicPath := Join(CursorLibPath, "Classic")

  /** The directories the application may look at, each with its listing in
      `os.listdir` order; a path is a directory exactly when it is a key. */
  datatype FileSystem = FileSystem(dirs: map<string, seq<string>>)

  /** `os.makedirs(path, exist_ok=True)` as far as the scans can observe it:
      afterwards `path` is a directory, empty when it was just created, and
      every other directory is as before. */
  function MakeDirs(fs: FileSystem, path: string): (fs': FileSystem)
    ensures path in fs'.dirs
    ensures path in fs.dirs ==> fs' == fs
    ensures path !in fs.dirs ==> fs'.dirs[path] == []
    ensures forall p :: p != path ==> (p in fs'.dirs <==> p in fs.dirs)
    ensures forall p :: p != path && p in fs.dirs ==> fs'.dirs[p] == fs.dirs[p]
  {
    if path in fs.dirs then fs else FileSystem(fs.dirs[path := []])
  }
}
