/** The state of the gallery window (`MainApp`) that its handlers update:
    the recent and favourite lists and their files, the loaded catalog, the
    page shown, and the registry writes of applying and resetting a cursor
    theme. Widgets, timers and threads are not part of it. */
module App {
  import opened Lists
  import opened Text
  import opened Paths
  import opened RecentThemes
  import opened Favorites
  import opened CursorFiles
  import opened Catalog
  import opened CursorRegistry

  /** A scheme with every path resolved once more against its folder, as
      the favourites-mode rebuild of `update_display` does. */
  function Reresolved(cwd: string, dir: string, scheme: map<string, string>): map<string, string> {
    map k | k in scheme :: AbsPath(cwd, Join(dir, scheme[k]))
  }

  /** Resolving the paths of a scan again changes nothing, as they are
      already absolute. */
  lemma {:induction false} ReresolvedScheme(cwd: string, dir: string, listing: seq<string>)
    requires IsAbsolute(cwd)
    ensures Reresolved(cwd, dir, CursorScheme(cwd, dir, listing)) == CursorScheme(cwd, dir, listing)
  {
    if listing != [] {
      var init, name := listing[..|listing| - 1], listing[|listing| - 1];
      ReresolvedScheme(cwd, dir, init);
      ReResolveIsIdentity(cwd, dir, name);
    }
  }

  /** Whether the folder of favourite `f` is a directory. */
  predicate HasFolder(fs: FileSystem, f: Favorite) {
    Join(CategoryPath(f.category), f.name) in fs.dirs
  }

  /** `current_cursors` as rebuilt in favourites mode: one entry per
      favourite whose folder exists, keyed by name, a later favourite
      overwriting an earlier one of the same name. */
  function FavoriteSchemes(fs: FileSystem, cwd: string, favs: seq<Favorite>): map<string, map<string, string>>
    decreases |favs|
  {
    if favs == [] then map[]
    else
      var prev := FavoriteSchemes(fs, cwd, favs[..|favs| - 1]);
      var f := favs[|favs| - 1];
      var full := Join(CategoryPath(f.category), f.name);
      if full in fs.dirs then prev[f.name := Reresolved(cwd, full, CursorScheme(cwd, full, fs.dirs[full]))]
      else prev
  }

  /** The rebuilt dict has an entry for a name exactly when some favourite
      of that name has an existing folder. */
  lemma {:induction false} FavoriteSchemesKeys(fs: FileSystem, cwd: string, favs: seq<Favorite>, name: string)
    ensures name in FavoriteSchemes(fs, cwd, favs) <==>
            exists i | 0 <= i < |favs| :: favs[i].name == name && HasFolder(fs, favs[i])
  {
    if favs != [] {
      var init := favs[..|favs| - 1];
      FavoriteSchemesKeys(fs, cwd, init, name);
      assert forall i | 0 <= i < |init| :: init[i] == favs[i];
    }
  }

  /** The last favourite of a name whose folder exists decides that name's
      scheme, and it is what a fresh scan of the folder gives. */
  lemma {:induction false} FavoriteSchemesLastWins(fs: FileSystem, cwd: string, favs: seq<Favorite>, i: int)
    requires IsAbsolute(cwd)
    requires 0 <= i < |favs| && HasFolder(fs, favs[i])
    requires forall j | i < j < |favs| :: favs[j].name != favs[i].name || !HasFolder(fs, favs[j])
    ensures favs[i].name in FavoriteSchemes(fs, cwd, favs)
    ensures FavoriteSchemes(fs, cwd, favs)[favs[i].name] ==
            FolderScheme(fs, cwd, CategoryPath(favs[i].category), favs[i].name)
  {
    var init, f := favs[..|favs| - 1], favs[|favs| - 1];
    if i == |favs| - 1 {
      var full := Join(CategoryPath(f.category), f.name);
      ReresolvedScheme(cwd, full, fs.dirs[full]);
    } else {
      assert init[i] == favs[i];
      assert forall j | i < j < |init| :: init[j] == favs[j];
      FavoriteSchemesLastWins(fs, cwd, init, i);
    }
  }

  /** The rebuilt dict holds favourites only: with `A` the one favourite,
      a loaded theme `B` has no scheme, whatever the folders hold. Since
      leaving favourites mode does not reload the category, applying `B`
      afterwards finds no scheme. */
  lemma FavoriteRebuildDropsOthers(fs: FileSystem, cwd: string)
    ensures "B" !in FavoriteSchemes(fs, cwd, [Favorite("A", "anime")])
  {
    FavoriteSchemesKeys(fs, cwd, [Favorite("A", "anime")], "B");
  }

  /** The favourites-mode loop of `update_display` that rebuilds
      `current_cursors`. */
  method LoadFavoriteSchemes(favs: seq<Favorite>, fs: FileSystem, cwd: string)
    returns (schemes: map<string, map<string, string>>)
    ensures schemes == FavoriteSchemes(fs, cwd, favs)
  {
    schemes := map[];
    for i := 0 to |favs|
      invariant schemes == FavoriteSchemes(fs, cwd, favs[..i])
    {
      var item := favs[i];
      assert favs[..i + 1][..i] == favs[..i];
      var path := if item.category == "anime" then AnimePath else ClassicPath;
      var fullPath := Join(path, item.name);
      if fullPath in fs.dirs {
        var files := LoadCursorFiles(fs, fullPath, cwd);
        var cursorFiles := map k | k in files :: AbsPath(cwd, Join(fullPath, files[k]));
        schemes := schemes[item.name := cursorFiles];
      }
    }
    assert favs[..|favs|] == favs;
  }

  /** How `apply_cursor` ends. */
  datatype ApplyOutcome =
    | Applied          // values written, cursors reloaded, theme recorded as recent
    | SchemeNotFound   // the caught error for a missing or empty scheme: nothing written
    | NotAFavorite     // favourites mode, no favourite of that name: `next` raises before anything happens

  /** The category `create_card` shows a card under: the current one, or in
      favourites mode that of the first favourite of that name, "anime" if
      there is none. */
  function CardCategory(isFavMode: bool, currentCategory: string, favs: seq<Favorite>, name: string): (c: string)
    ensures !isFavMode ==> c == currentCategory
    ensures isFavMode && FindCategory(favs, name).Some? ==> c == FindCategory(favs, name).value
    ensures isFavMode && (forall i | 0 <= i < |favs| :: favs[i].name != name) ==> c == LegacyCategory
  {
    if !isFavMode then currentCategory else FindCategory(favs, name).GetOr("anime")
  }

  /** Whether a card shows the filled star: its record is a favourite. */
  predicate IsStarred(favs: seq<Favorite>, name: string, category: string) {
    Favorite(name, category) in favs
  }

  /** With a duplicate-free list, the star a toggle sets on its button is
      the star a redraw of the card shows afterwards. */
  lemma ToggleStarMatchesRedraw(favs: seq<Favorite>, name: string, category: string)
    requires NoDups(favs)
    ensures IsStarred(Toggled(favs, Favorite(name, category)), name, category) <==>
            Favorite(name, category) !in favs
  {
    var e := Favorite(name, category);
    if e in favs {
      RemoveFirstNoDups(favs, e);
    } else {
      assert Toggled(favs, e)[|favs|] == e;
    }
  }

  /** In favourites mode every card drawn for a favourite's name shows the
      filled star, since its category is looked up from that favourite. */
  lemma FavoriteCardsAreStarred(favs: seq<Favorite>, currentCategory: string, name: string)
    requires name in Names(favs)
    ensures IsStarred(favs, name, CardCategory(true, currentCategory, favs, name))
  {
    var n := Names(favs);
    var k :| 0 <= k < |n| && n[k] == name;
    assert favs[k].name == name;
    var i :| 0 <= i < |favs| && favs[i].name == name && FindCategory(favs, name).value == favs[i].category;
    assert favs[i] == Favorite(name, favs[i].category);
  }

  class MainApp {
    var recent: seq<string>
    var favorites: seq<Favorite>
    var currentCursors: map<string, map<string, string>>
    var cursorOptions: seq<string>
    var currentPage: int
    var currentCategory: string
    var isFavMode: bool
    var view: PageView
    /** The contents of the two JSON files; `None` while a file does not exist. */
    var recentFile: Option<seq<string>>
    var favoritesFile: Option<seq<StoredItem>>

    ghost predicate Valid()
      reads this
    {
      currentPage >= 0
    }

    /** `__init__` and `load_data`: the recent list is read as it is; the
        favourites list is upgraded when it is in the old format. */
    constructor (recentFile: Option<seq<string>>, favoritesFile: Option<seq<StoredItem>>)
      requires favoritesFile.Some? ==> Migrated(favoritesFile.value).Some?
      ensures Valid()
      ensures recent == (if recentFile.Some? then recentFile.value else [])
      ensures favorites == (if favoritesFile.Some? then Migrated(favoritesFile.value).value else [])
      ensures this.recentFile == recentFile && this.favoritesFile == favoritesFile
      ensures currentCursors == map[] && cursorOptions == [] && currentPage == 0
      ensures currentCategory == "anime" && !isFavMode
    {
      recent := [];
      favorites := [];
      currentCursors := map[];
      cursorOptions := [];
      currentPage := 0;
      currentCategory := "anime";
      isFavMode := false;
      view := PageView([], 1, 0, false, false);
      this.recentFile := recentFile;
      this.favoritesFile := favoritesFile;
      new;
      if recentFile.Some? {
        recent := recentFile.value;
      }
      if favoritesFile.Some? {
        var data := favoritesFile.value;
        if data != [] && data[0].Plain? {
          favorites := seq(|data|, i requires 0 <= i < |data| => Favorite(data[i].text, "anime"));
        } else {
          favorites := seq(|data|, i requires 0 <= i < |data| && data[i].Record? => data[i].entry);
        }
      }
    }

    /** `save_data`: both lists are written to their files. */
    method SaveData()
      modifies this
      ensures recentFile == Some(recent) && favoritesFile == Some(Stored(favorites))
      ensures recent == old(recent) && favorites == old(favorites)
      ensures currentCursors == old(currentCursors) && cursorOptions == old(cursorOptions)
      ensures currentPage == old(currentPage) && currentCategory == old(currentCategory)
      ensures isFavMode == old(isFavMode) && view == old(view)
    {
      recentFile := Some(recent);
      favoritesFile := Some(Stored(favorites));
    }

    /** `update_recent`: remove, insert at the front, pop once if too long,
        then save. */
    method UpdateRecent(name: string)
      modifies this
      ensures recent == UpdatedRecent(old(recent), name)
      ensures recentFile == Some(recent) && favoritesFile == Some(Stored(favorites))
      ensures favorites == old(favorites)
      ensures currentCursors == old(currentCursors) && cursorOptions == old(cursorOptions)
      ensures currentPage == old(currentPage) && currentCategory == old(currentCategory)
      ensures isFavMode == old(isFavMode) && view == old(view)
    {
      if name in recent {
        recent := RemoveFirst(recent, name);
      }
      recent := [name] + recent;
      if |recent| > MaxRecent {
        recent := recent[..|recent| - 1];
      }
      SaveData();
    }

    /** `toggle_favorite`: removes the record when present, appends it
        otherwise, and saves; `starred` is the new text of the card's star
        button (filled after an append). */
    method ToggleFavorite(name: string, category: string) returns (starred: bool)
      modifies this
      ensures favorites == Toggled(old(favorites), Favorite(name, category))
      ensures starred <==> Favorite(name, category) !in old(favorites)
      ensures recentFile == Some(recent) && favoritesFile == Some(Stored(favorites))
      ensures recent == old(recent)
      ensures currentCursors == old(currentCursors) && cursorOptions == old(cursorOptions)
      ensures currentPage == old(currentPage) && currentCategory == old(currentCategory)
      ensures isFavMode == old(isFavMode) && view == old(view)
    {
      var entry := Favorite(name, category);
      if entry in favorites {
        favorites := RemoveFirst(favorites, entry);
        starred := false;
      } else {
        favorites := favorites + [entry];
        starred := true;
      }
      SaveData();
    }

    /** `update_display`: filters the catalog with the search box's text,
        in favourites mode rebuilds `current_cursors` from the favourites'
        folders, and shows the current page. */
    method UpdateDisplay(text: string, fs: FileSystem, cwd: string)
      requires Valid()
      modifies this
      ensures Valid()
      ensures Shows(view, Filtered(old(cursorOptions), old(favorites), old(isFavMode), text), currentPage)
      ensures currentCursors == if old(isFavMode) then FavoriteSchemes(fs, cwd, old(favorites)) else old(currentCursors)
      ensures recent == old(recent) && favorites == old(favorites) && cursorOptions == old(cursorOptions)
      ensures currentPage == old(currentPage) && currentCategory == old(currentCategory) && isFavMode == old(isFavMode)
      ensures recentFile == old(recentFile) && favoritesFile == old(favoritesFile)
    {
      var filtered := FilterNames(cursorOptions, favorites, currentCategory, isFavMode, text);
      if isFavMode {
        currentCursors := LoadFavoriteSchemes(favorites, fs, cwd);
      }
      view := RenderPage(filtered, currentPage);
    }

    /** `handle_loaded_data`: takes the worker's result, in its order, and
        shows its first page. */
    method HandleLoadedData(scan: Scan, text: string, fs: FileSystem, cwd: string)
      requires Valid()
      modifies this
      ensures Valid()
      ensures currentPage == 0 && cursorOptions == scan.order
      ensures currentCursors == if old(isFavMode) then FavoriteSchemes(fs, cwd, old(favorites)) else scan.schemes
      ensures Shows(view, Filtered(scan.order, favorites, isFavMode, text), 0)
      ensures recent == old(recent) && favorites == old(favorites)
      ensures currentCategory == old(currentCategory) && isFavMode == old(isFavMode)
      ensures recentFile == old(recentFile) && favoritesFile == old(favoritesFile)
    {
      currentCursors := scan.schemes;
      cursorOptions := scan.order;
      currentPage := 0;
      UpdateDisplay(text, fs, cwd);
    }

    /** `start_loading` with the worker run to completion: remembers the
        category, scans it (creating its folder when missing) and shows the
        result. */
    method StartLoading(category: string, text: string, fs: FileSystem, cwd: string) returns (fs': FileSystem)
      requires Valid()
      modifies this
      ensures Valid()
      ensures fs' == MakeDirs(fs, CategoryPath(category))
      ensures currentCategory == category && currentPage == 0
      ensures currentCursors ==
                if old(isFavMode) then FavoriteSchemes(fs', cwd, old(favorites))
                else ScanFolders(fs', cwd, CategoryPath(category), fs'.dirs[CategoryPath(category)]).schemes
      ensures cursorOptions == ScanFolders(fs', cwd, CategoryPath(category), fs'.dirs[CategoryPath(category)]).order
      ensures Shows(view, Filtered(cursorOptions, favorites, isFavMode, text), 0)
      ensures recent == old(recent) && favorites == old(favorites) && isFavMode == old(isFavMode)
      ensures recentFile == old(recentFile) && favoritesFile == old(favoritesFile)
    {
      currentCategory := category;
      var scan;
      scan, fs' := LoadCursors(category, fs, cwd);
      HandleLoadedData(scan, text, fs', cwd);
    }

    /** `switch_category`: leaves favourites mode and loads the category. */
    method SwitchCategory(category: string, text: string, fs: FileSystem, cwd: string) returns (fs': FileSystem)
      requires Valid()
      modifies this
      ensures Valid()
      ensures fs' == MakeDirs(fs, CategoryPath(category))
      ensures currentCategory == category && !isFavMode && currentPage == 0
      ensures currentCursors == ScanFolders(fs', cwd, CategoryPath(category), fs'.dirs[CategoryPath(category)]).schemes
      ensures cursorOptions == ScanFolders(fs', cwd, CategoryPath(category), fs'.dirs[CategoryPath(category)]).order
      ensures Shows(view, Matching(cursorOptions, text), 0)
      ensures recent == old(recent) && favorites == old(favorites)
      ensures recentFile == old(recentFile) && favoritesFile == old(favoritesFile)
    {
      currentCategory := category;
      isFavMode := false;
      fs' := StartLoading(category, text, fs, cwd);
    }

    /** `toggle_fav_mode`: flips the mode and redraws. */
    method ToggleFavMode(text: string, fs: FileSystem, cwd: string)
      requires Valid()
      modifies this
      ensures Valid()
      ensures isFavMode == !old(isFavMode)
      ensures currentPage == old(currentPage)
      ensures Shows(view, Filtered(cursorOptions, favorites, isFavMode, text), currentPage)
      ensures currentCursors == if isFavMode then FavoriteSchemes(fs, cwd, favorites) else old(currentCursors)
      ensures recent == old(recent) && favorites == old(favorites) && cursorOptions == old(cursorOptions)
      ensures currentCategory == old(currentCategory)
      ensures recentFile == old(recentFile) && favoritesFile == old(favoritesFile)
    {
      isFavMode := !isFavMode;
      UpdateDisplay(text, fs, cwd);
    }

    /** `prev_page`: steps back unless on the first page. */
    method PrevPage(text: string, fs: FileSystem, cwd: string)
      requires Valid()
      modifies this
      ensures Valid()
      ensures currentPage == if old(currentPage) > 0 then old(currentPage) - 1 else old(currentPage)
      ensures old(currentPage) == 0 ==> view == old(view)
      ensures old(currentPage) > 0 ==> Shows(view, Filtered(cursorOptions, favorites, isFavMode, text), currentPage)
      ensures currentCursors == if old(currentPage) > 0 && isFavMode then FavoriteSchemes(fs, cwd, favorites)
                                else old(currentCursors)
      ensures recent == old(recent) && favorites == old(favorites) && isFavMode == old(isFavMode)
      ensures cursorOptions == old(cursorOptions) && currentCategory == old(currentCategory)
      ensures recentFile == old(recentFile) && favoritesFile == old(favoritesFile)
    {
      if currentPage > 0 {
        currentPage := currentPage - 1;
        UpdateDisplay(text, fs, cwd);
      }
    }

    /** `next_page`: steps forward; the page count is not checked here, the
        button is only enabled when a later page exists. */
    method NextPage(text: string, fs: FileSystem, cwd: string)
      requires Valid()
      modifies this
      ensures Valid()
      ensures currentPage == old(currentPage) + 1
      ensures currentCursors == if isFavMode then FavoriteSchemes(fs, cwd, favorites) else old(currentCursors)
      ensures recent == old(recent) && favorites == old(favorites) && isFavMode == old(isFavMode)
      ensures cursorOptions == old(cursorOptions) && currentCategory == old(currentCategory)
      ensures recentFile == old(recentFile) && favoritesFile == old(favoritesFile)
      ensures Shows(view, Filtered(cursorOptions, favorites, isFavMode, text), currentPage)
      ensures NextEnabled(old(currentPage), |Filtered(cursorOptions, favorites, isFavMode, text)|) ==> view.cards != []
    {
      currentPage := currentPage + 1;
      UpdateDisplay(text, fs, cwd);
      ghost var filtered := Filtered(cursorOptions, favorites, isFavMode, text);
      if NextEnabled(old(currentPage), |filtered|) {
        NextPageNonEmpty(filtered, old(currentPage));
      }
    }

    /** `apply_cursor`: in favourites mode the name must belong to a
        favourite; the scheme must exist and be non-empty; then every role of
        `CursorKeys` the scheme has is written in table order, the cursors
        are reloaded and the theme becomes the most recent. */
    method ApplyCursor(name: string, reg: Registry) returns (outcome: ApplyOutcome)
      modifies this, reg
      ensures outcome == NotAFavorite <==> old(isFavMode) && FindCategory(old(favorites), name).None?
      ensures outcome == SchemeNotFound <==>
                !(old(isFavMode) && FindCategory(old(favorites), name).None?) &&
                (name !in old(currentCursors) || old(currentCursors)[name] == map[])
      ensures outcome != Applied ==> reg.values == old(reg.values) && reg.refreshes == old(reg.refreshes)
      ensures outcome != Applied ==>
                recent == old(recent) && recentFile == old(recentFile) && favoritesFile == old(favoritesFile)
      ensures outcome == Applied ==>
                && name in old(currentCursors)
                && reg.values == Written(old(reg.values), old(currentCursors)[name], CursorKeys)
                && reg.refreshes == old(reg.refreshes) + 1
                && recent == UpdatedRecent(old(recent), name)
                && recentFile == Some(recent)
                && favoritesFile == Some(Stored(favorites))
      ensures favorites == old(favorites) && currentCursors == old(currentCursors)
      ensures currentPage == old(currentPage) && isFavMode == old(isFavMode)
      ensures cursorOptions == old(cursorOptions) && currentCategory == old(currentCategory) && view == old(view)
    {
      if isFavMode {
        var category := FindCategory(favorites, name);
        if category.None? {
          return NotAFavorite;
        }
      }
      if name !in currentCursors || currentCursors[name] == map[] {
        return SchemeNotFound;
      }
      var scheme := currentCursors[name];
      for i := 0 to |CursorKeys|
        modifies reg
        invariant reg.values == Written(old(reg.values), scheme, CursorKeys[..i])
        invariant reg.refreshes == old(reg.refreshes)
      {
        assert CursorKeys[..i + 1][..i] == CursorKeys[..i];
        var (keyName, regName) := CursorKeys[i];
        if keyName in scheme {
          reg.SetValue(regName, scheme[keyName]);
        }
      }
      assert CursorKeys[..|CursorKeys|] == CursorKeys;
      reg.Refresh();
      UpdateRecent(name);
      outcome := Applied;
    }

    /** `reset_to_default_cursor`: every registry name of `CursorKeys` is
        set to the empty string, then the cursors are reloaded. */
    method ResetToDefaultCursor(reg: Registry)
      modifies reg
      ensures reg.values == Cleared(old(reg.values), CursorKeys)
      ensures reg.refreshes == old(reg.refreshes) + 1
    {
      for i := 0 to |CursorKeys|
        invariant reg.values == Cleared(old(reg.values), CursorKeys[..i])
        invariant reg.refreshes == old(reg.refreshes)
      {
        assert CursorKeys[..i + 1][..i] == CursorKeys[..i];
        var (_, regName) := CursorKeys[i];
        reg.SetValue(regName, "");
      }
      assert CursorKeys[..|CursorKeys|] == CursorKeys;
      reg.Refresh();
    }
  }
}
