# Cursor-Galaxy: verified model of the theme catalog rules

Cursor-Galaxy (`main.py`) is a Qt application for Windows. It browses folders of cursor themes, which are `.cur` and `.ani` files. It applies a theme by writing the theme's file paths into the registry key `HKEY_CURRENT_USER\Control Panel\Cursors` and then asking Windows to reload the cursors. It also keeps two lists, each saved to a JSON file:

- the five most recently applied themes;
- a list of favourite themes, each a name and a category.

This project models in Dafny the deterministic rules behind that window:

- **`RecentThemes`**: the recent-themes list.
- **`Favorites`**:
  - toggling a favourite;
  - looking a favourite up by name;
  - upgrading an old favourites file, which was a flat list of names.
- **`CursorFiles`**:
  - choosing the cursor files in a theme folder;
  - the role key of each file (its lower-cased name up to the first dot);
  - the scan of a category (`Worker.load_cursors`).
- **`Catalog`**:
  - the case-insensitive search filter;
  - pages of 12 items with Python floor division;
  - the four-column card grid.
- **`CursorRegistry`**:
  - the `CURSOR_KEYS` table, which maps each role to a registry value name;
  - the values written by apply and by reset.
- **`App.MainApp`**: a class holding the fields `MainApp` updates, with one method per handler.
- **Helper modules**:
  - **`Lists`**: Python's `list.remove` and `index`.
  - **`Text`**: ASCII lower-casing, substring search and `split(".")[0]`.
  - **`Paths`**: Windows `os.path.join` and `abspath` over an explicit working directory, and the directory tree.

The outside world enters as parameters:

- **Filesystem:** a `FileSystem` value maps each directory path to its listing.
- **Working directory:** `cwd` for `abspath`.
- **Search box:** its text, `text`.
- **Registry:** an object `Registry` holds the registry values and counts the cursor reloads.
- **JSON files:** their contents are `Option` fields of `MainApp` (`None` while the file is absent).

Two consequences of the source's own behaviour are stated, not corrected:

- Favourites mode replaces `current_cursors` with the favourites' rebuilt schemes (main.py:615-625). Leaving the mode does not reload the category (main.py:740-743). After that, applying a loaded theme that is not a favourite finds no scheme. See `App.MainApp.ToggleFavMode`, `App.FavoriteRebuildDropsOthers` and `App.MainApp.ApplyCursor`.
- A card in favourites mode takes the category of the first favourite of its name (main.py:649-651). The rebuilt scheme comes from the last favourite of that name whose folder exists (main.py:616-625).

## Model

| member | source | states |
|---|---|---|
| Lists.IndexOf | main.py:723-724 | the position found holds the element and is its first occurrence |
| Lists.RemoveFirst | main.py:723-724 | removing an absent element changes nothing; removing a present one shortens the list by one |
| Lists.RemoveFirstSplit | main.py:723-724 | `remove` deletes exactly the first occurrence; those before and after stay, in order |
| Lists.RemoveFirstMultiset | main.py:732-733 | `remove` takes away one copy of the element and nothing else |
| Lists.RemoveFirstNoDups | main.py:723-724 | on a duplicate-free list the element is gone afterwards and the list stays duplicate-free |
| Lists.RemoveFirstAppended | main.py:732-736 | an element just appended to a list that lacked it is removed again exactly |
| Text.Lower | main.py:599 | lower-casing keeps the length |
| Text.LowerIdempotent | main.py:599 | lower-casing twice equals lower-casing once |
| Text.ContainsEmpty | main.py:599 | an empty search text is contained in every name |
| Text.BeforeFirstDot | main.py:825 | `split(".")[0]` is a dot-free prefix, cut exactly at the first dot when there is one |
| Paths.AbsPathIsAbsolute | main.py:826 | `abspath` against an absolute working directory gives an absolute path |
| Paths.ReResolveIsIdentity | main.py:621-624 | joining an already absolute path to its folder and resolving it again gives it back |
| Paths.MakeDirs | main.py:195-196 | `makedirs` adds the directory, empty, when it is missing and changes nothing otherwise |
| CursorFiles.CursorKeyShape | main.py:824-825 | a cursor file's key is a dot-free proper prefix of its lower-cased name, followed by a dot |
| CursorFiles.MixedCaseCursorFile | main.py:824-825 | `Busy.ANI` is a cursor file keyed `busy` |
| CursorFiles.KeyStopsAtFirstDot | main.py:825 | `work.v2.cur` is keyed `work` |
| CursorFiles.PreviewIsNotCursorFile | main.py:824 | `preview.gif` is not taken as a cursor file |
| CursorFiles.CursorSchemeRoles | main.py:819-827 | the scheme's keys are exactly the keys of the listing's cursor files |
| CursorFiles.CursorSchemeLastWins | main.py:202-205 | a key maps to the absolute path of the last cursor file in the listing with that key |
| CursorFiles.LoadCursorFiles | main.py:819-827 | a missing folder gives an empty dict; otherwise the loop builds the listing's scheme |
| CursorFiles.ScanFolders | main.py:198-207 | the scan has exactly the folders that are directories with at least one cursor file, each with its folder's scheme, listed without duplicates |
| CursorFiles.ScanFoldersOrder | main.py:198-208 | the scan lists the yielding folders in listing order |
| CursorFiles.LoadCursors | main.py:191-208 | the category folder is created if missing, then scanned as listed |
| CursorFiles.FreshInstallFindsNothing | main.py:194-198 | a category whose folder does not exist yields no themes |
| RecentThemes.UpdatedRecent | main.py:722-728 | the name is first; the others follow in their old order without it; only one entry is dropped, and only when the list exceeds five |
| RecentThemes.RecentNameOnce | main.py:723-725 | a name that occurred at most once before occurs exactly once after |
| RecentThemes.RecentKeepsOrder | main.py:723-725 | the entries other than the name keep their relative order |
| RecentThemes.RecentBounded | main.py:726-727 | at most five entries without duplicates stay at most five without duplicates |
| RecentThemes.OverlongListIsNotTrimmed | main.py:726-727 | a list of seven entries stays at seven, since only one `pop` happens |
| RecentThemes.RecentAfterBounded | main.py:722-728 | any run of applications from an empty list keeps it at most five long and duplicate-free |
| RecentThemes.RecentAfterDistinct | main.py:722-728 | applying distinct names from an empty list leaves the last five, newest first |
| RecentThemes.ReversedMembers | main.py:722-728 | the newest-first order holds exactly the applied names |
| RecentThemes.ReversedIndex | main.py:725 | the newest-first order puts the k-th most recent application at position k |
| RecentThemes.SixDistinctLeaveFive | main.py:726-727 | after six distinct themes five entries remain, the last applied first, and the oldest is gone |
| Favorites.Toggled | main.py:730-738 | a present record loses its first occurrence; an absent one is appended |
| Favorites.ToggledMembership | main.py:731-737 | the record is present after a toggle iff it did not occur exactly once before |
| Favorites.ToggleTwiceAbsent | main.py:731-737 | toggling an absent record twice gives back the original list |
| Favorites.ToggleTwiceMembership | main.py:731-737 | toggling twice restores membership iff the record does not occur exactly twice |
| Favorites.ToggledNoDups | main.py:731-737 | toggling keeps a duplicate-free list duplicate-free |
| Favorites.DuplicateToggledTwiceDisappears | main.py:731-737 | a record listed twice is gone after two toggles |
| Favorites.FindCategory | main.py:649-651 | none iff no favourite has the name; otherwise the category of the first favourite with it |
| Favorites.Names | main.py:613 | the names of the favourites, in order |
| Favorites.Stored | main.py:320-321 | the favourites file holds as many entries as there are favourites, all of them records |
| Favorites.Migrated | main.py:309-315 | a non-empty list of names becomes one `anime` record per name; a list of records is kept; a mixed list is rejected |
| Favorites.MigratedStored | main.py:309-321 | reading back a saved favourites list gives the same list |
| Favorites.MigratedLegacyNames | main.py:312-313 | an upgraded file is as long as the old one, its names are the old names and every category is `anime` |
| Favorites.LegacyExample | main.py:312-313 | the old file `["cool_theme"]` becomes the single record `{cool_theme, anime}` |
| Catalog.MatchesIgnoresCase | main.py:599 | matching does not depend on the case of the search text or of the name |
| Catalog.Matching | main.py:613-614 | the filter never returns more names than it is given |
| Catalog.MatchingMembers | main.py:604-611 | a name is kept iff the lower-cased search text occurs in its lower-cased form |
| Catalog.MatchingAppend | main.py:604-611 | filtering distributes over concatenation, so list order is kept |
| Catalog.MatchingEmptySearch | main.py:599 | an empty search box keeps every name |
| Catalog.FilterNames | main.py:598-614 | normal mode filters the loaded themes; favourites mode gives the filtered favourites' names in favourites order, discarding the loop's result |
| Catalog.FloorDiv | main.py:627 | Python's `//` by a positive divisor: the largest quotient not above the ratio, also for a negative dividend |
| Catalog.TotalPages | main.py:627 | the page count is the number of pages needed for n items, so 0 for none |
| Catalog.Slice | main.py:630 | `s[start:end]` has `min(end, len(s)) - start` items when `start < end` and `start < len(s)`, otherwise none, and item k is `s[start + k]` |
| Catalog.PageItems | main.py:627-630 | page p holds at most 12 items: the filtered list from 12p up to min(12p+12, n) |
| Catalog.NextEnabledIffMorePages | main.py:646 | Next is enabled iff a later page exists |
| Catalog.PageNonEmptyIff | main.py:627-630 | page p is non-empty iff 12p < n |
| Catalog.NextPageNonEmpty | main.py:646 | when Next is enabled, the next page is non-empty |
| Catalog.EveryItemOnItsPage | main.py:627-630 | item j of the filtered list is on page j div 12, at offset j mod 12, and that page is counted |
| Catalog.PlaceCards | main.py:637-642 | the k-th item is placed at row k/4, column k%4 |
| Catalog.CellsDistinct | main.py:637-642 | two different page items never share a grid cell |
| Catalog.RenderPage | main.py:627-646 | the view holds page p's items in the grid, never below the third row, the label `p + 1` of the page count, Prev iff p > 0, and Next iff 12p+12 < n |
| CursorRegistry.WrittenLastWins | main.py:711-714 | a registry name receives the path of the last table entry that maps to it and whose role the scheme has |
| CursorRegistry.WrittenUntouched | main.py:711-714 | a registry name that no present role maps to keeps its value, or stays absent |
| CursorRegistry.WrittenKeys | main.py:711-714 | only registry names of the table are written |
| CursorRegistry.WorkingOverridesWork | main.py:40-53 | with both roles present, `WorkingInBackground` gets the path of "working", not of "work" |
| CursorRegistry.ArrowEntries | main.py:28-43 | only "pointer" and "normal" map to `Arrow` |
| CursorRegistry.ArrowFromNormalOrPointer | main.py:28-43 | `Arrow` gets the path of "normal" when the scheme has it, else that of "pointer" |
| CursorRegistry.ClearedSpec | main.py:834-836 | reset sets every registry name of the table to "" and leaves every other value as it was |
| CursorRegistry.ResetUndoesApply | main.py:711-714 | resetting after applying any scheme gives the same registry as resetting straight away |
| CursorRegistry.Registry.constructor | main.py:711 | the registry starts from the given values, with no reload yet |
| CursorRegistry.Registry.SetValue | main.py:714 | `SetValueEx` sets exactly one value |
| CursorRegistry.Registry.Refresh | main.py:716 | `SystemParametersInfoW(SPI_SETCURSORS)` counts one reload and changes no value |
| App.ReresolvedScheme | main.py:621-624 | resolving a fresh scheme's paths again changes none of them |
| App.FavoriteSchemesKeys | main.py:615-625 | in favourites mode a name has a scheme iff some favourite of that name has an existing folder |
| App.FavoriteSchemesLastWins | main.py:615-625 | the last favourite of a name whose folder exists decides its scheme, which equals a fresh scan of that folder |
| App.FavoriteRebuildDropsOthers | main.py:615-625 | with `A` the only favourite, the rebuilt dict has no scheme for another theme `B` |
| App.LoadFavoriteSchemes | main.py:615-625 | the favourites-mode loop rebuilds `current_cursors` as specified by `FavoriteSchemes` |
| App.CardCategory | main.py:649-651 | in normal mode a card uses the current category; in favourites mode it uses the first favourite's category, or `anime` when no favourite has the name |
| App.ToggleStarMatchesRedraw | main.py:686 | on a duplicate-free list, the star set by a toggle is filled iff the redrawn card shows the record as a favourite |
| App.FavoriteCardsAreStarred | main.py:649-651 | in favourites mode every card of a favourite's name shows the filled star |
| App.MainApp.constructor | main.py:285-315 | starts on page 0 of `anime`, outside favourites mode; reads the recent list as stored and upgrades an old favourites file |
| App.MainApp.SaveData | main.py:317-321 | both files hold the current lists; nothing else changes |
| App.MainApp.UpdateRecent | main.py:722-728 | the recent list becomes `UpdatedRecent` of the old one and is saved |
| App.MainApp.ToggleFavorite | main.py:730-738 | the favourites become `Toggled` of the old list and are saved; the star is filled iff the record was absent |
| App.MainApp.UpdateDisplay | main.py:598-646 | the view shows the current page of the mode's filtered list; favourites mode rebuilds the cursor schemes; no other state changes |
| App.MainApp.HandleLoadedData | main.py:587-592 | takes the scan's order and shows page 0; the schemes are the scan's, or in favourites mode the favourites' rebuilt ones; nothing else changes |
| App.MainApp.StartLoading | main.py:574-585 | records the category, creates and scans its folder, and shows page 0 of the filtered list; the schemes are the scan's, or in favourites mode the rebuilt ones; the files are untouched |
| App.MainApp.SwitchCategory | main.py:745-748 | leaves favourites mode, loads the category's scan, and shows page 0 of its filtered themes; the files are untouched |
| App.MainApp.ToggleFavMode | main.py:740-743 | flips favourites mode and redraws the same page; entering the mode rebuilds the schemes from the favourites, leaving it keeps them as they were |
| App.MainApp.PrevPage | main.py:750-753 | steps back one page and redraws unless already on page 0, so the page never becomes negative; the list paged and the files are unchanged |
| App.MainApp.NextPage | main.py:755-757 | steps forward one page and redraws the same list; when Next was enabled the new page has cards; the files are unchanged |
| App.MainApp.ApplyCursor | main.py:698-720 | favourites mode needs a favourite of that name; a missing or empty scheme writes nothing and leaves the recent list alone; otherwise every present role is written in table order, the cursors reload, the theme becomes most recent and both files are saved; the catalog and view are unchanged |
| App.MainApp.ResetToDefaultCursor | main.py:829-839 | every registry name of the table is set to "" and the cursors reload once |

## Left out

- Qt widgets, animations, timers, painting, dialogs and notifications are not modelled; they hold no state the rules above depend on. A page view is the cards' grid cells, the label numbers and the two buttons' enabled flags.
- The `QThread`/`Worker.run` wiring and its error signal are not modelled. `StartLoading` runs the scan to completion before the result is handled.
- `winreg` is a `Registry` object and `SystemParametersInfoW` is a reload counter. Errors from opening or writing the key, which the source catches and only reports, are not modelled.
- Reading and writing the JSON files is not modelled: their contents are inputs and fields. A file that fails to parse, or holds values of other JSON types, is outside the model. An I/O error inside `save_data` is not modelled either.
- `App.MainApp.constructor` requires a favourites file that is either all names or all records. For a mixed file the source does one of two things. When the first element is a record, it keeps the list as loaded. When the first element is a name, it wraps every element as a name, records included (main.py:313). The model rejects both cases (`Migrated` returns `None`).
- `Text.Lower` lower-cases ASCII letters only. Python's `str.lower` also maps non-ASCII letters.
- `Paths.Join` and `Paths.AbsPath` model `ntpath` for drive-qualified absolute paths and plain relative names. They do not model `normpath`'s collapsing of `.`/`..` and repeated separators, UNC paths, or drive-relative paths.
- `Paths.MakeDirs` adds only the requested directory, as an empty one. It does not create missing parents, and it adds no entry to any parent's listing.
- `os.path.exists` and `os.path.isdir` are one test: a path exists when it is a directory of the model. Plain files are entries of a listing only.
- The unused local `current_category` of `update_display` (main.py:600), the unused `files = os.listdir(full_path)` call of the favourites-mode rebuild (main.py:620) and the unused `category` variable of `apply_cursor` are not modelled.
- `find_preview` and the widget part of `create_card` are not modelled; only the card's category and star are.
- Favorites.ToggleTwiceMembership: "toggling twice restores membership" is stated as an iff, with the case of a record listed exactly twice excluded. In that case a legacy or hand-edited file can make the record disappear (`DuplicateToggledTwiceDisappears`).
- App.MainApp.ApplyCursor: a name missing from the favourites in favourites mode ends in `NotAFavorite`. In the source, `next` raises `StopIteration` outside the `try`, so the exception leaves the handler; nothing is written either way.
