/**
 * The page list's filter transitions and pagination bar
 * (frontend/src/pages/PageList.jsx). Each handler is a spread copy of the
 * previous filters; the bar is a function of the current page and the
 * page count the list route reports.
 */
module PageList {
  import opened Wrappers

  /** The list query: free text, the category selector's value (`""` for all) and the page number. */
  datatype Filters = Filters(search: string, categoryId: string, page: int)

  const InitialFilters := Filters("", "", 1)

  /** `handleSearchChange`: the new text, back to page 1, same category. */
  function SearchChange(f: Filters, value: string): (r: Filters)
    ensures r.search == value && r.page == 1 && r.categoryId == f.categoryId
  {
    f.(search := value, page := 1)
  }

  /** `handleCategoryChange`: the new category, back to page 1, same text. */
  function CategoryChange(f: Filters, value: string): (r: Filters)
    ensures r.categoryId == value && r.page == 1 && r.search == f.search
  {
    f.(categoryId := value, page := 1)
  }

  /** `handlePageChange`: only the page number changes. */
  function PageChange(f: Filters, newPage: int): (r: Filters)
    ensures r.page == newPage && r.search == f.search && r.categoryId == f.categoryId
  {
    f.(page := newPage)
  }

  /** The order of a text edit and a category pick does not matter. */
  lemma SearchAndCategoryCommute(f: Filters, search: string, categoryId: string)
    ensures CategoryChange(SearchChange(f, search), categoryId) == SearchChange(CategoryChange(f, categoryId), search)
  {
  }

  /** One numbered button of the bar. */
  datatype Button = Button(number: int, active: bool)

  datatype Bar = Bar(backDisabled: bool, buttons: seq<Button>, nextDisabled: bool)

  function Min(a: int, b: int): int { if a < b then a else b }

  /**
   * The pagination bar: shown when the list is not empty and there is more
   * than one page; buttons `1 … min(5, pages)`, the current one active;
   * Back disabled on page 1 and Next on the last page.
   */
  function Pagination(listed: nat, pages: int, current: int): (r: Option<Bar>)
    ensures r.Some? <==> listed > 0 && pages > 1
    ensures r.Some? ==>
      && |r.value.buttons| == Min(5, pages)
      && (forall i :: 0 <= i < |r.value.buttons| ==> r.value.buttons[i] == Button(i + 1, current == i + 1))
      && (r.value.backDisabled <==> current == 1)
      && (r.value.nextDisabled <==> current == pages)
  {
    if listed > 0 && pages > 1 then
      Some(Bar(current == 1, seq(Min(5, pages), i requires 0 <= i < Min(5, pages) => Button(i + 1, current == i + 1)), current == pages))
    else None
  }

  /** At most one numbered button is active, and one is exactly when the current page is among the first five. */
  lemma OneActiveButton(listed: nat, pages: int, current: int)
    requires listed > 0 && pages > 1
    ensures var b := Pagination(listed, pages, current).value.buttons;
      && (forall i, j :: 0 <= i < |b| && 0 <= j < |b| && b[i].active && b[j].active ==> i == j)
      && ((exists i :: 0 <= i < |b| && b[i].active) <==> 1 <= current <= Min(5, pages))
  {
    var b := Pagination(listed, pages, current).value.buttons;
    if 1 <= current <= Min(5, pages) {
      assert b[current - 1].active;
    }
  }

  datatype Click = Back | Number(n: int) | Next

  /** A click the bar lets through: Back and Next when not disabled, a number when its button is shown. */
  predicate Enabled(bar: Bar, click: Click) {
    match click
    case Back => !bar.backDisabled
    case Next => !bar.nextDisabled
    case Number(n) => exists i :: 0 <= i < |bar.buttons| && bar.buttons[i].number == n
  }

  /** The filters after a click: `page - 1`, the button's number, or `page + 1`. */
  function Clicked(f: Filters, click: Click): (r: Filters)
    ensures r.search == f.search && r.categoryId == f.categoryId
  {
    match click
    case Back => PageChange(f, f.page - 1)
    case Next => PageChange(f, f.page + 1)
    case Number(n) => PageChange(f, n)
  }

  /** Clicking an enabled control from a page within range lands on a page within range. */
  lemma ClicksStayInRange(f: Filters, listed: nat, pages: int, click: Click)
    requires listed > 0 && pages > 1 && 1 <= f.page <= pages
    requires Enabled(Pagination(listed, pages, f.page).value, click)
    ensures 1 <= Clicked(f, click).page <= pages
  {
    var bar := Pagination(listed, pages, f.page).value;
    if click.Number? {
      var i :| 0 <= i < |bar.buttons| && bar.buttons[i].number == click.n;
    }
  }
}
