/** Turning a theme folder's listing into a cursor scheme (role name to
    absolute file path), as `MainApp.load_cursor_files` and the dict
    comprehension in `Worker.load_cursors` do, and the worker's scan of a
    whole category. */
module CursorFiles {
  import opened Lists
  import opened Text
  import opened Paths

  /** A file is a cursor when its lowered name ends in `.cur` or `.ani`. */
  predicate IsCursorFile(name: string) {
    EndsWith(Lower(name), ".cur") || EndsWith(Lower(name), ".ani")
  }

  /** The role a cursor file stands for: its lowered name up to the first dot. */
  function CursorKey(name: string): string {
    BeforeFirstDot(Lower(name))
  }

  /** The role of a cursor file is a non-dot prefix of its lowered name and
      is followed there by a dot: `Busy.Ani` gives `busy`, `Work.v2.cur`
      gives `work`. */
  lemma CursorKeyShape(name: string)
    requires IsCursorFile(name)
    ensures CursorKey(name) < Lower(name)
    ensures '.' !in CursorKey(name)
    ensures Lower(name)[|CursorKey(name)|] == '.'
  {
    var l := Lower(name);
    var suffix := if EndsWith(l, ".cur") then ".cur" else ".ani";
    assert l[|l| - 4] == suffix[0] == '.';
  }

  /** The extension test and the key ignore case. */
  lemma MixedCaseCursorFile()
    ensures IsCursorFile("Busy.ANI") && CursorKey("Busy.ANI") == "busy"
  {
    assert Lower("Busy.ANI") == "busy.ani";
    assert EndsWith("busy.ani", ".ani");
    assert BeforeFirstDot("busy.ani") == "busy";
  }

  /** The key stops at the first dot, not the last. */
  lemma KeyStopsAtFirstDot()
    ensures IsCursorFile("work.v2.cur") && CursorKey("work.v2.cur") == "work"
  {
    assert Lower("work.v2.cur") == "work.v2.cur";
    assert EndsWith("work.v2.cur", ".cur");
    assert BeforeFirstDot("work.v2.cur") == "work";
  }

  /** A preview image is not a cursor file. */
  lemma PreviewIsNotCursorFile()
    ensures !IsCursorFile("preview.gif")
  {
    assert Lower("preview.gif") == "preview.gif";
  }

  /** The path a cursor file's role is bound to. */
  function CursorPath(cwd: string, dir: string, name: string): string {
    AbsPath(cwd, Join(dir, name))
  }

  /** The roles a listing provides. */
  function RolesOf(listing: seq<string>): set<string> {
    set i | 0 <= i < |listing| && IsCursorFile(listing[i]) :: CursorKey(listing[i])
  }

  /** `listing[i]` is a cursor file for `role` and no later file is. */
  predicate LastFor(listing: seq<string>, i: int, role: string) {
    && 0 <= i < |listing|
    && IsCursorFile(listing[i]) && CursorKey(listing[i]) == role
    && forall j | i < j < |listing| :: !(IsCursorFile(listing[j]) && CursorKey(listing[j]) == role)
  }

  /** The scheme of one folder, built in listing order so that a later file
      with the same role overwrites an earlier one. */
  function CursorScheme(cwd: string, dir: string, listing: seq<string>): map<string, string>
    decreases |listing|
  {
    if listing == [] then map[]
    else
      var init, name := listing[..|listing| - 1], listing[|listing| - 1];
      var m := CursorScheme(cwd, dir, init);
      if IsCursorFile(name) then m[CursorKey(name) := CursorPath(cwd, dir, name)] else m
  }

  /** A file is kept exactly when it is a cursor file: the scheme's roles
      are those of the cursor files in the listing, and only those. */
  lemma {:induction false} CursorSchemeRoles(cwd: string, dir: string, listing: seq<string>)
    ensures CursorScheme(cwd, dir, listing).Keys == RolesOf(listing)
  {
    if listing != [] {
      var init, name := listing[..|listing| - 1], listing[|listing| - 1];
      CursorSchemeRoles(cwd, dir, init);
      assert RolesOf(listing) == RolesOf(init) + (if IsCursorFile(name) then {CursorKey(name)} else {}) by {
        assert forall i | 0 <= i < |init| :: init[i] == listing[i];
      }
    }
  }

  /** Last writer wins: each role is bound to the path of the last file in
      the listing that provides it. */
  lemma {:induction false} CursorSchemeLastWins(cwd: string, dir: string, listing: seq<string>, i: int)
    requires 0 <= i < |listing| && LastFor(listing, i, CursorKey(listing[i]))
    ensures CursorKey(listing[i]) in CursorScheme(cwd, dir, listing)
    ensures CursorScheme(cwd, dir, listing)[CursorKey(listing[i])] == CursorPath(cwd, dir, listing[i])
  {
    var n := |listing|;
    var role := CursorKey(listing[i]);
    if i < n - 1 {
      var init := listing[..n - 1];
      var last := listing[n - 1];
      assert !(IsCursorFile(last) && CursorKey(last) == role);
      assert init[i] == listing[i];
      assert LastFor(init, i, CursorKey(init[i])) by {
        forall j | i < j < |init| ensures !(IsCursorFile(init[j]) && CursorKey(init[j]) == CursorKey(init[i])) {
          assert init[j] == listing[j];
        }
      }
      CursorSchemeLastWins(cwd, dir, init, i);
      var m := CursorScheme(cwd, dir, init);
      assert CursorScheme(cwd, dir, listing) == if IsCursorFile(last) then m[CursorKey(last) := CursorPath(cwd, dir, last)] else m;
    }
  }

  /** `MainApp.load_cursor_files`: a missing folder gives an empty scheme;
      otherwise every cursor file of the listing is entered under its role. */
  method LoadCursorFiles(fs: FileSystem, folder: string, cwd: string) returns (files: map<string, string>)
    ensures folder !in fs.dirs ==> files == map[]
    ensures folder in fs.dirs ==> files == CursorScheme(cwd, folder, fs.dirs[folder])
  {
    files := map[];
    if folder in fs.dirs {
      var listing := fs.dirs[folder];
      for i := 0 to |listing|
        invariant files == CursorScheme(cwd, folder, listing[..i])
      {
        var name := listing[i];
        ghost var before := CursorScheme(cwd, folder, listing[..i]);
        assert listing[..i + 1][..i] == listing[..i];
        assert CursorScheme(cwd, folder, listing[..i + 1]) ==
          if IsCursorFile(name) then before[CursorKey(name) := CursorPath(cwd, folder, name)] else before;
        if EndsWith(Lower(name), ".cur") || EndsWith(Lower(name), ".ani") {
          var key := BeforeFirstDot(Lower(name));
          files := files[key := AbsPath(cwd, Join(folder, name))];
        }
      }
      assert listing[..|listing|] == listing;
    }
  }

  /** The worker's result: a dict from theme folder to scheme, with its
      insertion order kept in `order`. */
  datatype Scan = Scan(order: seq<string>, schemes: map<string, map<string, string>>)

  /** `d[k] = v` on an insertion-ordered dict: a new key goes to the end, an
      existing key keeps its place. */
  function Insert(s: Scan, k: string, v: map<string, string>): Scan {
    Scan(if k in s.schemes then s.order else s.order + [k], s.schemes[k := v])
  }

  /** The root directory of a category. */
  function CategoryPath(category: string): string {
    if category == "anime" then AnimePath else ClassicPath
  }

  /** The scheme of theme folder `folder` under `root`. */
  function FolderScheme(fs: FileSystem, cwd: string, root: string, folder: string): map<string, string> {
    var full := Join(root, folder);
    if full in fs.dirs then CursorScheme(cwd, full, fs.dirs[full]) else map[]
  }

  /** A folder yields a theme when it is a directory with at least one
      cursor file. */
  predicate Yields(fs: FileSystem, cwd: string, root: string, folder: string) {
    Join(root, folder) in fs.dirs && FolderScheme(fs, cwd, root, folder) != map[]
  }

  /** The themes found among `folders`, in listing order. */
  function ScanFolders(fs: FileSystem, cwd: string, root: string, folders: seq<string>): (s: Scan)
    ensures s.schemes.Keys == set i | 0 <= i < |folders| && Yields(fs, cwd, root, folders[i]) :: folders[i]
    ensures forall f :: f in s.schemes ==> s.schemes[f] == FolderScheme(fs, cwd, root, f)
    ensures NoDups(s.order)
    ensures forall f :: f in s.order <==> f in s.schemes
    decreases |folders|
  {
    if folders == [] then Scan([], map[])
    else
      var init, folder := folders[..|folders| - 1], folders[|folders| - 1];
      var s := ScanFolders(fs, cwd, root, init);
      assert forall i | 0 <= i < |init| :: init[i] == folders[i];
      if Yields(fs, cwd, root, folder) then Insert(s, folder, FolderScheme(fs, cwd, root, folder)) else s
  }

  /** On a listing without repeated names (as `os.listdir` gives), the scan
      keeps exactly the folders that yield a theme, in listing order; the
      others are omitted. */
  lemma {:induction false} ScanFoldersOrder(fs: FileSystem, cwd: string, root: string, folders: seq<string>)
    requires NoDups(folders)
    ensures ScanFolders(fs, cwd, root, folders).order == YieldingFolders(fs, cwd, root, folders)
  {
    if folders != [] {
      var init, folder := folders[..|folders| - 1], folders[|folders| - 1];
      ScanFoldersOrder(fs, cwd, root, init);
      assert folder !in init by {
        forall i | 0 <= i < |init| ensures init[i] != folder {
          assert init[i] == folders[i];
        }
      }
    }
  }

  /** The folders of a listing that yield a theme, in listing order. */
  function YieldingFolders(fs: FileSystem, cwd: string, root: string, folders: seq<string>): seq<string>
    decreases |folders|
  {
    if folders == [] then []
    else
      var init, folder := folders[..|folders| - 1], folders[|folders| - 1];
      YieldingFolders(fs, cwd, root, init) + (if Yields(fs, cwd, root, folder) then [folder] else [])
  }

  /** `Worker.load_cursors`: creates the category root when missing, then
      scans every folder of it. */
  method LoadCursors(category: string, fs: FileSystem, cwd: string) returns (scan: Scan, fs': FileSystem)
    ensures fs' == MakeDirs(fs, CategoryPath(category))
    ensures scan == ScanFolders(fs', cwd, CategoryPath(category), fs'.dirs[CategoryPath(category)])
  {
    var path := CategoryPath(category);
    fs' := fs;
    if path !in fs'.dirs {
      fs' := FileSystem(fs'.dirs[path := []]);
    }
    var folders := fs'.dirs[path];
    scan := Scan([], map[]);
    for i := 0 to |folders|
      invariant scan == ScanFolders(fs', cwd, path, folders[..i])
    {
      var folder := folders[i];
      var fullPath := Join(path, folder);
      assert folders[..i + 1][..i] == folders[..i];
      if fullPath in fs'.dirs {
        var files := fs'.dirs[fullPath];
        var cursorFiles := CursorScheme(cwd, fullPath, files);
        if cursorFiles != map[] {
          scan := Insert(scan, folder, cursorFiles);
        }
      }
    }
    assert folders[..|folders|] == folders;
  }

  /** A fresh install has no category root yet: the scan creates it and
      finds nothing. */
  lemma FreshInstallFindsNothing(category: string, fs: FileSystem, cwd: string)
    requires CategoryPath(category) !in fs.dirs
    ensures var fs' := MakeDirs(fs, CategoryPath(category));
            ScanFolders(fs', cwd, CategoryPath(category), fs'.dirs[CategoryPath(category)]) == Scan([], map[])
  {
  }
}
