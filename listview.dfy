/**
  The list-view controller of the events page: the module-level state
  (`currentPage`, `searchTerm`, `selectedCategory`), the display flag of
  every table row and the contents of the pagination container, together
  with the handlers that update them.
*/
module ListView {
  import opened Basics
  import opened Text
  import opened Filter
  import opened Paginator

  /**
    The container's links after `updatePagination(items)` with current page
    `current`: rewritten only when there is a container and more than one
    page, otherwise left as they were.
  */
  function Repaginated(before: seq<Link>, hasContainer: bool, current: int, items: nat): (after: seq<Link>)
    ensures hasContainer && items > PageSize ==> after == Strip(current, TotalPages(items))
    ensures !(hasContainer && items > PageSize) ==> after == before
  {
    if hasContainer && TotalPages(items) > 1 then Strip(current, TotalPages(items)) else before
  }

  /**
    The loop of `filterAndDisplayEvents`: set the display flag of each row to
    the filter's decision and count the rows kept.
  */
  method ApplyFilter(shown: array<bool>, rows: seq<Row>, term: string, selected: string) returns (visibleCount: nat)
    requires shown.Length == |rows|
    modifies shown
    ensures shown[..] == Visibility(rows, term, selected)
    ensures visibleCount == CountTrue(shown[..])
  {
    ghost var spec := Visibility(rows, term, selected);
    visibleCount := 0;
    for i := 0 to shown.Length
      invariant forall j :: 0 <= j < i ==> shown[j] == spec[j]
      invariant visibleCount == CountTrue(spec[..i])
    {
      var keep := RowMatches(rows[i], term, selected);
      shown[i] := keep;
      if keep {
        visibleCount := visibleCount + 1;
      }
      assert spec[..i + 1][..i] == spec[..i];
    }
    assert shown[..] == spec;
    assert spec[..shown.Length] == spec;
  }

  class Controller {
    /** The rows of `#eventsTable tbody` in document order; the controller never adds, removes or edits one. */
    const rows: seq<Row>
    /** `shown[i]` is false exactly when row `i` has `style.display = 'none'`. */
    const shown: array<bool>
    /** Whether the page has a `#paginationContainer` element. */
    const hasContainer: bool

    var searchTerm: string
    var selectedCategory: string
    var currentPage: int
    /** The page links inside the pagination container, in document order. */
    var strip: seq<Link>

    /**
      The controller's invariant: one display flag per row and a stored
      search term that is already lower-case. The container is empty or holds
      a strip drawn for page 1 (every repagination follows a reset to page 1),
      and the current page is one of that strip's pages, or 1 when there is
      no strip.
    */
    ghost predicate Valid()
      reads this
    {
      && shown.Length == |rows|
      && IsLowered(searchTerm)
      && (!hasContainer ==> strip == [])
      && (strip == [] || DrawnForFirstPage(strip))
      && (strip == [] ==> currentPage == 1)
      && (strip != [] ==> 1 <= currentPage <= |strip| - 2)
    }

    /** The state on page load: every row displayed, no search, every category, page 1, an empty container. */
    constructor (tableRows: seq<Row>, container: bool)
      ensures Valid() && fresh(shown)
      ensures rows == tableRows && hasContainer == container
      ensures shown[..] == Visibility(rows, "", AllCategories)
      ensures searchTerm == "" && selectedCategory == AllCategories && currentPage == 1
      ensures strip == []
    {
      rows := tableRows;
      hasContainer := container;
      shown := new bool[|tableRows|](i => true);
      searchTerm := "";
      selectedCategory := AllCategories;
      currentPage := 1;
      strip := [];
      forall i | 0 <= i < |tableRows|
        ensures RowMatches(tableRows[i], "", AllCategories)
      {
        EmptyTermKeepsCategory(tableRows[i], AllCategories);
      }
    }

    /** `handleSearch`: store the lower-cased input, go back to page 1 and filter again. */
    method HandleSearch(input: string)
      requires Valid()
      modifies this, shown
      ensures Valid()
      ensures searchTerm == ToLower(input) && selectedCategory == old(selectedCategory) && currentPage == 1
      ensures shown[..] == Visibility(rows, searchTerm, selectedCategory)
      ensures strip == Repaginated(old(strip), hasContainer, 1, CountTrue(shown[..]))
    ensures ToLower(searchTerm) == searchTerm
    {
      searchTerm := ToLower(input);
      currentPage := 1;
      var _ := FilterAndDisplayEvents();
      ToLowerIdempotent(input);
    }

    /** `handleCategoryFilter`: store the selection as it is, go back to page 1 and filter again. */
    method HandleCategoryFilter(selection: string)
      requires Valid()
      modifies this, shown
      ensures Valid()
      ensures selectedCategory == selection && searchTerm == old(searchTerm) && currentPage == 1
      ensures shown[..] == Visibility(rows, searchTerm, selectedCategory)
      ensures strip == Repaginated(old(strip), hasContainer, 1, CountTrue(shown[..]))
    ensures ToLower(searchTerm) == searchTerm
    {
      selectedCategory := selection;
      currentPage := 1;
      var _ := FilterAndDisplayEvents();
      LoweredIsFixpoint(searchTerm);
    }

    /**
      `filterAndDisplayEvents`, as both handlers call it (right after setting
      the current page to 1): show exactly the rows the filter keeps, count
      them, and repaginate with that count. No page slicing happens here, so
      more than `PageSize` rows may be shown.
    */
    method FilterAndDisplayEvents() returns (visibleCount: nat)
      requires Valid() && currentPage == 1
      modifies this`strip, shown
      ensures Valid()
      ensures shown[..] == Visibility(rows, searchTerm, selectedCategory)
      ensures visibleCount == CountTrue(shown[..])
      ensures strip == Repaginated(old(strip), hasContainer, currentPage, visibleCount)
    {
      visibleCount := ApplyFilter(shown, rows, searchTerm, selectedCategory);
      UpdatePagination(visibleCount);
    }

    /**
      `updatePagination(totalItems)`, as reached from the filter (current
      page 1): with a container and more than one page, replace its links by
      the strip for the current page; otherwise leave whatever links it holds.
    */
    method UpdatePagination(totalItems: nat)
      requires Valid() && currentPage == 1
      modifies this`strip
      ensures Valid()
      ensures strip == Repaginated(old(strip), hasContainer, currentPage, totalItems)
    {
      var totalPages := TotalPages(totalItems);
      if hasContainer && totalPages > 1 {
        strip := RenderStrip(currentPage, totalPages);
      }
    }

    /**
      `displayPage(page)`: show exactly the rows of the whole table whose index
      lies in the page's range, whatever the filter decided, then move the
      active mark to the links for `page`.
    */
    method DisplayPage(page: int)
      requires Valid()
      modifies shown, this`strip
      ensures Valid()
      ensures shown[..] == PageWindow(|rows|, page)
      ensures CountTrue(shown[..]) <= PageSize
      ensures strip == Activate(old(strip), page)
    {
      var startIndex := (page - 1) * PageSize;
      var endIndex := startIndex + PageSize;
      for index := 0 to shown.Length
        invariant forall i :: 0 <= i < index ==> (shown[i] <==> startIndex <= i < endIndex)
        invariant strip == old(strip)
      {
        shown[index] := startIndex <= index < endIndex;
      }
      assert shown[..] == PageWindow(|rows|, page);
      WindowCount(|rows|, page);
      UpdatePaginationButtons(page);
    }

    /** `updatePaginationButtons(activePage)`: an item is active exactly when its link's `data-page` is `activePage`. */
    method UpdatePaginationButtons(activePage: int)
      requires Valid()
      modifies this`strip
      ensures Valid()
      ensures strip == Activate(old(strip), activePage)
    {
      ghost var before := strip;
      for k := 0 to |strip|
        invariant |strip| == |before|
        invariant forall j :: 0 <= j < k ==> strip[j] == before[j].(active := before[j].page == activePage)
        invariant forall j :: k <= j < |strip| ==> strip[j] == before[j]
      {
        strip := strip[k := strip[k].(active := strip[k].page == activePage)];
      }
      assert strip == Activate(before, activePage);
      if strip != [] {
        ActivateKeepsDrawing(before, activePage);
      }
    }

    /**
      The container's click handler for the link at position `k`: a link whose
      `data-page` is 0 does nothing; any other page number becomes the current
      page and is displayed. Since the strip is always drawn for page 1,
      Previous is always ignored and Next always leads to page 2.
    */
    method ClickPageLink(k: nat)
      requires Valid() && k < |strip|
      modifies this, shown
      ensures Valid()
      ensures searchTerm == old(searchTerm) && selectedCategory == old(selectedCategory)
      ensures old(strip[k].page) == 0 ==>
        currentPage == old(currentPage) && strip == old(strip) && shown[..] == old(shown[..])
      ensures old(strip[k].page) != 0 ==>
        && currentPage == old(strip[k].page)
        && shown[..] == PageWindow(|rows|, currentPage)
        && strip == Activate(old(strip), currentPage)
      ensures old(strip[k].kind) == Previous ==> currentPage == old(currentPage) && shown[..] == old(shown[..])
      ensures old(strip[k].kind) == Next ==> currentPage == 2
    {
      FirstPageStripPages(strip);
      var page := strip[k].page;
      if page != 0 {
        currentPage := page;
        DisplayPage(page);
      }
    }
  }

  /**
    Fifteen matching rows make two pages. Previous is ignored; Next shows
    the last five rows; on page 2 Next still leads to page 2.
  */
  method TwoPageWalk() returns (afterPrevious: int, afterNext: int, shownOnSecond: nat, afterNextAgain: int)
    ensures afterPrevious == 1 && afterNext == 2 && shownOnSecond == 5 && afterNextAgain == 2
  {
    var rows := seq(15, i => Row("Meetup", "Hall", Some("tech")));
    var view := new Controller(rows, true);
    view.HandleCategoryFilter(AllCategories);
    EverythingShownByDefault(rows);
    assert view.strip == Strip(1, 2);
    view.ClickPageLink(0);
    afterPrevious := view.currentPage;
    view.ClickPageLink(3);
    afterNext := view.currentPage;
    WindowCount(15, 2);
    shownOnSecond := CountTrue(view.shown[..]);
    view.ClickPageLink(3);
    afterNextAgain := view.currentPage;
  }
}
