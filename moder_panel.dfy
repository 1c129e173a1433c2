/**
 * The moderator's panel (frontend/src/pages/ModerPanel.jsx): the comment
 * list filtered by page, the page selector, and deletion through a
 * confirmation dialog. API answers are parameters; the messages go
 * through the translation lookup of the current language.
 */
module ModerPanel {
  import opened Wrappers
  import opened Ordering
  import opened Store
  import PagesRoute
  import Language
  import Text

  /** The request filter: `pageId` is the selector's value, `""` for every page. */
  datatype Filters = Filters(pageId: string, page: int)

  /** `queryParams.get('pageId') || ''`. */
  function InitialFilters(query: Option<string>): (r: Filters)
    ensures r.page == 1
    ensures query.None? ==> r.pageId == ""
    ensures query.Some? ==> r.pageId == query.value
  {
    Filters(Text.OrElse(query.GetOr(""), ""), 1)
  }

  /** The query of GET `/comments`: it carries `pageId` exactly when the filter names a page. */
  function RequestParams(pageId: string): (r: Option<string>)
    ensures r.Some? <==> pageId != ""
    ensures r.Some? ==> r.value == pageId
  {
    if pageId != "" then Some(pageId) else None
  }

  /** `handlePageSelectChange`: the selected page, back on the first result page. */
  function SelectPage(f: Filters, value: string): (r: Filters)
    ensures r.pageId == value && r.page == 1
  {
    f.(pageId := value, page := 1)
  }

  /**
   * What the list shows after GET `/comments`: the `comments` array of the
   * answer; `[]` when the call fails or the body holds no array there
   * (`body` is `None`).
   */
  function Shown(answer: Reply<Option<seq<Comment>>>): (r: seq<Comment>)
    ensures answer.Err? ==> r == []
    ensures answer.Ok? && answer.value.None? ==> r == []
    ensures answer.Ok? && answer.value.Some? ==> r == answer.value.value
  {
    match answer
    case Ok(body) => body.GetOr([])
    case Err(_) => []
  }

  /** A request the panel sends. */
  datatype Call = ListByComments | ListComments(pageId: Option<string>) | DeleteCall(commentId: int)

  class Panel {
    var comments: seq<Comment>
    var pages: seq<PagesRoute.PageItem>
    var loading: bool
    var error: string
    var isFetching: bool
    var filters: Filters
    var modalOpen: bool
    var commentToDelete: Option<Comment>
    var calls: seq<Call>

    /** Mounting with the `pageId` of the address's query string. */
    constructor (query: Option<string>)
      ensures comments == [] && pages == [] && loading && error == "" && !isFetching
      ensures filters == InitialFilters(query) && !modalOpen && commentToDelete.None? && calls == []
    {
      comments := [];
      pages := [];
      loading := true;
      error := "";
      isFetching := false;
      filters := InitialFilters(query);
      modalOpen := false;
      commentToDelete := None;
      calls := [];
    }

    /** `fetchPages`: the pages by comment count, or none when the call fails. */
    method FetchPages(answer: Reply<seq<PagesRoute.PageItem>>)
      modifies this
      ensures pages == (if answer.Ok? then answer.value else []) && !loading
      ensures calls == old(calls) + [ListByComments]
      ensures comments == old(comments) && error == old(error) && filters == old(filters)
      ensures isFetching == old(isFetching) && modalOpen == old(modalOpen) && commentToDelete == old(commentToDelete)
    {
      calls := calls + [ListByComments];
      match answer {
        case Ok(listed) =>
          pages := listed;
        case Err(_) =>
          pages := [];
      }
      loading := false;
    }

    /** `fetchComments(pageId)`: the query is built field by field, and the answer replaces the list. */
    method FetchComments(pageId: string, answer: Reply<Option<seq<Comment>>>)
      modifies this
      ensures calls == old(calls) + [ListComments(RequestParams(pageId))]
      ensures comments == Shown(answer) && !isFetching
      ensures pages == old(pages) && loading == old(loading) && error == old(error) && filters == old(filters)
      ensures modalOpen == old(modalOpen) && commentToDelete == old(commentToDelete)
    {
      isFetching := true;
      var params: Option<string> := None;
      if pageId != "" {
        params := Some(pageId);
      }
      calls := calls + [ListComments(params)];
      match answer {
        case Ok(body) =>
          if body.Some? {
            comments := body.value;
          } else {
            comments := [];
          }
        case Err(_) =>
          comments := [];
      }
      isFetching := false;
    }

    /** `handlePageSelectChange`; the effect on `filters.pageId` then calls `FetchComments`. */
    method SelectPageChange(value: string)
      modifies this
      ensures filters == SelectPage(old(filters), value)
      ensures comments == old(comments) && pages == old(pages) && loading == old(loading) && error == old(error)
      ensures isFetching == old(isFetching) && modalOpen == old(modalOpen)
      ensures commentToDelete == old(commentToDelete) && calls == old(calls)
    {
      filters := filters.(pageId := value, page := 1);
    }

    /** `openConfirmModal`. */
    method OpenConfirm(c: Comment)
      modifies this
      ensures commentToDelete == Some(c) && modalOpen
      ensures comments == old(comments) && pages == old(pages) && loading == old(loading) && error == old(error)
      ensures isFetching == old(isFetching) && filters == old(filters) && calls == old(calls)
    {
      commentToDelete := Some(c);
      modalOpen := true;
    }

    /**
     * `handleDeleteComment`: on success the comment leaves the list and the
     * page counts are requested again (`refreshed` is that answer); on
     * failure the error is the translation of `deleteError`. When the
     * language has no table, `t` throws inside the `catch`: nothing is set
     * and the call rejects, which `thrown` reports.
     */
    method DeleteComment(commentId: int, language: string, answer: Reply<()>,
                         refreshed: Reply<seq<PagesRoute.PageItem>>) returns (thrown: bool)
      modifies this
      ensures thrown <==> answer.Err? && Language.T(language, "deleteError").Crash?
      ensures answer.Ok? ==> comments == Without(old(comments), CommentId, commentId)
      ensures answer.Ok? ==> calls == old(calls) + [DeleteCall(commentId), ListByComments]
      ensures answer.Ok? ==> pages == (if refreshed.Ok? then refreshed.value else []) && !loading
      ensures answer.Ok? ==> error == old(error)
      ensures answer.Err? ==> comments == old(comments) && pages == old(pages) && loading == old(loading)
      ensures answer.Err? ==> calls == old(calls) + [DeleteCall(commentId)]
      ensures answer.Err? && Language.T(language, "deleteError").Text? ==> error == Language.T(language, "deleteError").text
      ensures answer.Err? && Language.T(language, "deleteError").Crash? ==> error == old(error)
      ensures filters == old(filters) && modalOpen == old(modalOpen)
      ensures commentToDelete == old(commentToDelete) && isFetching == old(isFetching)
    {
      calls := calls + [DeleteCall(commentId)];
      thrown := false;
      match answer {
        case Ok(_) =>
          comments := Without(comments, CommentId, commentId);
          FetchPages(refreshed);
        case Err(_) =>
          var message := Language.T(language, "deleteError");
          if message.Text? {
            error := message.text;
          } else {
            thrown := true;
          }
      }
    }

    /**
     * `confirmDelete`: nothing without a chosen comment; otherwise delete it
     * and close the dialog. When the deletion rejects, the `await` rethrows
     * before the dialog is closed: `thrown` reports it and the dialog stays as it was.
     */
    method ConfirmDelete(language: string, answer: Reply<()>,
                         refreshed: Reply<seq<PagesRoute.PageItem>>) returns (thrown: bool)
      modifies this
      ensures thrown <==> old(commentToDelete).Some? && answer.Err? && Language.T(language, "deleteError").Crash?
      ensures old(commentToDelete).None? ==>
        && comments == old(comments) && pages == old(pages) && loading == old(loading) && error == old(error)
        && modalOpen == old(modalOpen) && calls == old(calls)
      ensures old(commentToDelete).Some? ==>
        && modalOpen == (if thrown then old(modalOpen) else false)
        && |calls| > |old(calls)| && calls[|old(calls)|] == DeleteCall(old(commentToDelete).value.id)
        && (answer.Ok? ==> comments == Without(old(comments), CommentId, old(commentToDelete).value.id))
        && (answer.Err? ==> comments == old(comments))
      ensures filters == old(filters) && commentToDelete == old(commentToDelete) && isFetching == old(isFetching)
    {
      if commentToDelete.None? {
        return false;
      }
      thrown := DeleteComment(commentToDelete.value.id, language, answer, refreshed);
      if !thrown {
        modalOpen := false;
      }
    }
  }

  /** In either language, a failed deletion shows the untranslated key `deleteError`. */
  lemma DeleteFailureShowsKey(language: string)
    requires language == "ru" || language == "en"
    ensures Language.T(language, "deleteError") == Language.Text("deleteError")
  {
    Language.DeleteErrorUntranslated();
  }
}
