/** The browser's catalog view (`MainApp.update_display`): the search
    filter, the page arithmetic for pages of `ItemsPerPage` themes, and the
    placement of a page's cards in a grid of `Columns` columns. */
module Catalog {
  import opened Lists
  import opened Text
  import opened Favorites

  const ItemsPerPage := 12
  const Columns := 4

  /** The search rule: the lowered search text occurs in the lowered name. */
  predicate Matches(searchText: string, name: string) {
    Contains(Lower(name), Lower(searchText))
  }

  /** Case does not matter on either side. */
  lemma MatchesIgnoresCase(searchText: string, name: string)
    ensures Matches(Lower(searchText), name) == Matches(searchText, name)
    ensures Matches(searchText, Lower(name)) == Matches(searchText, name)
  {
    LowerIdempotent(searchText);
    LowerIdempotent(name);
  }

  /** The names that match, in their original order. */
  function Matching(names: seq<string>, searchText: string): (r: seq<string>)
    ensures |r| <= |names|
    decreases |names|
  {
    if names == [] then []
    else
      var init, name := names[..|names| - 1], names[|names| - 1];
      Matching(init, searchText) + (if Matches(searchText, name) then [name] else [])
  }

  /** A name is kept exactly when it is in the list and matches. */
  lemma {:induction false} MatchingMembers(names: seq<string>, searchText: string)
    ensures forall x :: x in Matching(names, searchText) <==> x in names && Matches(searchText, x)
  {
    if names != [] {
      var init := names[..|names| - 1];
      MatchingMembers(init, searchText);
      assert names == init + [names[|names| - 1]];
    }
  }

  /** Filtering respects concatenation, so the kept names stay in list
      order. */
  lemma {:induction false} MatchingAppend(a: seq<string>, b: seq<string>, searchText: string)
    ensures Matching(a + b, searchText) == Matching(a, searchText) + Matching(b, searchText)
    decreases |b|
  {
    if b == [] {
      assert a + b == a;
    } else {
      var init := b[..|b| - 1];
      assert (a + b)[..|a + b| - 1] == a + init;
      assert (a + b)[|a + b| - 1] == b[|b| - 1];
      MatchingAppend(a, init, searchText);
    }
  }

  /** An empty search keeps everything. */
  lemma {:induction false} MatchingEmptySearch(names: seq<string>)
    ensures Matching(names, "") == names
  {
    if names != [] {
      MatchingEmptySearch(names[..|names| - 1]);
      ContainsEmpty(Lower(names[|names| - 1]));
      assert Lower("") == "";
    }
  }

  /** The names of the current category that are favourites and match: what
      the loop collects in favourites mode before it is replaced. */
  function StarredMatching(names: seq<string>, favs: seq<Favorite>, category: string, searchText: string): seq<string>
    decreases |names|
  {
    if names == [] then []
    else
      var init, name := names[..|names| - 1], names[|names| - 1];
      StarredMatching(init, favs, category, searchText) +
        (if Favorite(name, category) in favs && Matches(searchText, name) then [name] else [])
  }

  /** The filtered list of `update_display`. In normal mode the loaded
      themes are filtered; in favourites mode the loop's result is replaced
      by the favourites' names, filtered by the same rule, in favourites
      order. */
  method FilterNames(options: seq<string>, favs: seq<Favorite>, category: string, isFavMode: bool, text: string)
    returns (filtered: seq<string>)
    ensures !isFavMode ==> filtered == Matching(options, text)
    ensures isFavMode ==> filtered == Matching(Names(favs), text)
  {
    var searchText := Lower(text);
    filtered := [];
    for i := 0 to |options|
      invariant !isFavMode ==> filtered == Matching(options[..i], text)
      invariant isFavMode ==> filtered == StarredMatching(options[..i], favs, category, text)
    {
      var name := options[i];
      assert options[..i + 1][..i] == options[..i];
      if isFavMode {
        if Favorite(name, category) in favs {
          if Contains(Lower(name), searchText) {
            filtered := filtered + [name];
          }
        }
      } else {
        if Contains(Lower(name), searchText) {
          filtered := filtered + [name];
        }
      }
    }
    assert options[..|options|] == options;
    if isFavMode {
      filtered := Matching(Names(favs), text);
    }
  }

  /** Python's `a // b` for a positive divisor: rounds toward minus
      infinity, so `-1 // 12 == -1`. */
  function FloorDiv(a: int, b: int): (q: int)
    requires b > 0
    ensures q * b <= a < q * b + b
  {
    a / b
  }

  /** `(n - 1) // 12 + 1`: the number of pages, 0 for an empty list. */
  function TotalPages(n: nat): (t: int)
    ensures n == 0 ==> t == 0
    ensures n > 0 ==> t > 0 && (t - 1) * ItemsPerPage < n <= t * ItemsPerPage
  {
    FloorDiv(n - 1, ItemsPerPage) + 1
  }

  /** Python's `s[start:end]` for non-negative bounds. */
  function Slice(s: seq<string>, start: nat, end: nat): (r: seq<string>)
    ensures |r| == if start < end && start < |s| then Min(end, |s|) - start else 0
    ensures forall k | 0 <= k < |r| :: r[k] == s[start + k]
  {
    if start < end && start < |s| then s[start..if end < |s| then end else |s|] else []
  }

  /** The themes shown on page `page`: `filtered[12p .. min(12p + 12, n)]`,
      so never more than twelve. */
  function PageItems(filtered: seq<string>, page: nat): (r: seq<string>)
    ensures |r| <= ItemsPerPage
    ensures |r| == if page * ItemsPerPage >= |filtered| then 0
                   else Min(ItemsPerPage, |filtered| - page * ItemsPerPage)
    ensures forall k | 0 <= k < |r| :: r[k] == filtered[page * ItemsPerPage + k]
  {
    Slice(filtered, page * ItemsPerPage, page * ItemsPerPage + ItemsPerPage)
  }

  /** The "previous" button is enabled on every page but the first. */
  predicate PrevEnabled(page: int) {
    page > 0
  }

  /** The "next" button is enabled when the page does not reach the end. */
  predicate NextEnabled(page: int, n: nat) {
    page * ItemsPerPage + ItemsPerPage < n
  }

  /** "Next" is enabled exactly when a later page exists. */
  lemma NextEnabledIffMorePages(page: nat, n: nat)
    ensures NextEnabled(page, n) <==> page + 1 < TotalPages(n)
  {
    if n > 0 {
      var t := TotalPages(n);
      if NextEnabled(page, n) {
        assert (page + 1) * ItemsPerPage < n;
        assert (page + 1) * ItemsPerPage < t * ItemsPerPage;
      } else {
        assert n <= (page + 1) * ItemsPerPage;
        assert (t - 1) * ItemsPerPage < (page + 1) * ItemsPerPage;
      }
    }
  }

  /** A page has items exactly when its number is below the page count. */
  lemma PageNonEmptyIff(filtered: seq<string>, page: nat)
    ensures PageItems(filtered, page) != [] <==> page < TotalPages(|filtered|)
  {
    var n := |filtered|;
    if n > 0 {
      var t := TotalPages(n);
      if page < t {
        assert page * ItemsPerPage <= (t - 1) * ItemsPerPage;
      } else {
        assert page * ItemsPerPage >= t * ItemsPerPage;
      }
    }
  }

  /** Following an enabled "next" button never leads to an empty page. */
  lemma NextPageNonEmpty(filtered: seq<string>, page: nat)
    requires NextEnabled(page, |filtered|)
    ensures PageItems(filtered, page + 1) != []
  {
    NextEnabledIffMorePages(page, |filtered|);
    PageNonEmptyIff(filtered, page + 1);
  }

  /** Every filtered theme appears on exactly one page, at a fixed slot:
      item j is slot `j % 12` of page `j / 12`. */
  lemma EveryItemOnItsPage(filtered: seq<string>, j: nat)
    requires j < |filtered|
    ensures j / ItemsPerPage < TotalPages(|filtered|)
    ensures j % ItemsPerPage < |PageItems(filtered, j / ItemsPerPage)|
    ensures PageItems(filtered, j / ItemsPerPage)[j % ItemsPerPage] == filtered[j]
  {
    var p := j / ItemsPerPage;
    assert p * ItemsPerPage + j % ItemsPerPage == j;
    PageNonEmptyIff(filtered, p);
  }

  /** A card in the grid. */
  datatype Placement = Placement(name: string, row: nat, col: nat)

  /** The grid loop: cards go row by row, `Columns` to a row. */
  method PlaceCards(items: seq<string>) returns (cards: seq<Placement>)
    ensures |cards| == |items|
    ensures forall k | 0 <= k < |items| :: cards[k] == Placement(items[k], k / Columns, k % Columns)
  {
    var row, col := 0, 0;
    cards := [];
    for i := 0 to |items|
      invariant |cards| == i
      invariant row == i / Columns && col == i % Columns
      invariant forall k | 0 <= k < i :: cards[k] == Placement(items[k], k / Columns, k % Columns)
    {
      cards := cards + [Placement(items[i], row, col)];
      col := (col + 1) % Columns;
      if col == 0 {
        row := row + 1;
      }
    }
  }

  /** No two cards share a cell. */
  lemma CellsDistinct(k1: nat, k2: nat)
    requires k1 != k2
    ensures (k1 / Columns, k1 % Columns) != (k2 / Columns, k2 % Columns)
  {
    assert k1 == (k1 / Columns) * Columns + k1 % Columns;
    assert k2 == (k2 / Columns) * Columns + k2 % Columns;
  }

  /** What `update_display` shows for one page. */
  datatype PageView = PageView(
    cards: seq<Placement>,
    pageNumber: int,  // the "page p + 1 of total" label
    totalPages: int,
    prevEnabled: bool,
    nextEnabled: bool)

  /** The list `update_display` pages through in the given mode. */
  function Filtered(options: seq<string>, favs: seq<Favorite>, isFavMode: bool, text: string): seq<string> {
    if isFavMode then Matching(Names(favs), text) else Matching(options, text)
  }

  /** `view` shows page `page` of `filtered`: the page's items in the
      four-column grid, the "page p + 1 of total" label and the two buttons. */
  predicate Shows(view: PageView, filtered: seq<string>, page: nat) {
    && |view.cards| == |PageItems(filtered, page)|
    && (forall k | 0 <= k < |view.cards| ::
          view.cards[k] == Placement(filtered[page * ItemsPerPage + k], k / Columns, k % Columns))
    && view.pageNumber == page + 1 && view.totalPages == TotalPages(|filtered|)
    && (view.prevEnabled <==> PrevEnabled(page))
    && (view.nextEnabled <==> NextEnabled(page, |filtered|))
  }

  /** The page part of `update_display`: slice, grid, label and buttons. */
  method RenderPage(filtered: seq<string>, page: nat) returns (view: PageView)
    ensures |view.cards| <= ItemsPerPage
    ensures forall k | 0 <= k < |view.cards| :: view.cards[k].row < 3
    ensures Shows(view, filtered, page)
  {
    var totalPages := FloorDiv(|filtered| - 1, ItemsPerPage) + 1;
    var start := page * ItemsPerPage;
    var end := start + ItemsPerPage;
    var pageItems := Slice(filtered, start, end);
    var cards := PlaceCards(pageItems);
    view := PageView(cards, page + 1, totalPages, page > 0, end < |filtered|);
  }
}
