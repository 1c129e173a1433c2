/**
 * The administrator's panel (frontend/src/pages/AdminPanel.jsx): the
 * comment list built from the page list, and the two deletions. The API
 * calls are I/O: their answers are parameters, and `confirmed` is the
 * answer to `window.confirm`.
 */
module AdminPanel {
  import opened Wrappers
  import opened Ordering
  import opened Store
  import PagesRoute

  /** A page of the list as the panel reads it; `comments` is `None` when the field is absent. */
  datatype ListedPage = ListedPage(id: int, title: string, comments: Option<seq<Comment>>)

  /** `{ ...comment, pageTitle }`. */
  datatype TaggedComment = TaggedComment(comment: Comment, pageTitle: string)

  /** The comments one page contributes, tagged with its title; none when the field is absent or empty. */
  function Contribution(p: ListedPage): (r: seq<TaggedComment>)
    ensures p.comments.None? ==> r == []
    ensures p.comments.Some? ==>
              |r| == |p.comments.value| && forall j :: 0 <= j < |r| ==> r[j] == TaggedComment(p.comments.value[j], p.title)
  {
    if p.comments.Some? && |p.comments.value| > 0
    then seq(|p.comments.value|, j requires 0 <= j < |p.comments.value| => TaggedComment(p.comments.value[j], p.title))
    else []
  }

  /** The contributions of the pages, concatenated in page order. */
  function Flatten(pages: seq<ListedPage>): seq<TaggedComment> {
    if pages == [] then [] else Contribution(pages[0]) + Flatten(pages[1..])
  }

  lemma {:induction false} FlattenAppend(a: seq<ListedPage>, b: seq<ListedPage>)
    ensures Flatten(a + b) == Flatten(a) + Flatten(b)
  {
    if a == [] {
      assert a + b == b;
    } else {
      assert (a + b)[1..] == a[1..] + b;
      FlattenAppend(a[1..], b);
    }
  }

  /** A tagged comment is listed exactly when some page has that comment and that title. */
  lemma {:induction false} FlattenMembers(pages: seq<ListedPage>, x: TaggedComment)
    ensures x in Flatten(pages) <==>
      exists i :: 0 <= i < |pages| && pages[i].comments.Some? && pages[i].title == x.pageTitle
                  && x.comment in pages[i].comments.value
  {
    if pages != [] {
      FlattenMembers(pages[1..], x);
      var c := Contribution(pages[0]);
      assert x in c <==> pages[0].comments.Some? && pages[0].title == x.pageTitle && x.comment in pages[0].comments.value by {
        if x in c {
          var j :| 0 <= j < |c| && c[j] == x;
        }
        if pages[0].comments.Some? && pages[0].title == x.pageTitle && x.comment in pages[0].comments.value {
          var j :| 0 <= j < |pages[0].comments.value| && pages[0].comments.value[j] == x.comment;
          assert c[j] == x;
        }
      }
      if exists i :: 1 <= i < |pages| && pages[i].comments.Some? && pages[i].title == x.pageTitle
                     && x.comment in pages[i].comments.value {
        var i :| 1 <= i < |pages| && pages[i].comments.Some? && pages[i].title == x.pageTitle
                 && x.comment in pages[i].comments.value;
        assert pages[1..][i - 1] == pages[i];
      }
      if exists i :: 0 <= i < |pages[1..]| && pages[1..][i].comments.Some? && pages[1..][i].title == x.pageTitle
                     && x.comment in pages[1..][i].comments.value {
        var i :| 0 <= i < |pages[1..]| && pages[1..][i].comments.Some? && pages[1..][i].title == x.pageTitle
                 && x.comment in pages[1..][i].comments.value;
        assert pages[i + 1] == pages[1..][i];
      }
    }
  }

  /** Pages with no comments field, or an empty one, contribute nothing. */
  lemma {:induction false} WithoutCommentsContributeNothing(pages: seq<ListedPage>)
    requires forall i :: 0 <= i < |pages| ==> pages[i].comments.None? || pages[i].comments.value == []
    ensures Flatten(pages) == []
  {
    if pages != [] {
      WithoutCommentsContributeNothing(pages[1..]);
    }
  }

  /** `fetchData` on the comments tab: the `for … of` loop pushing each page's tagged comments. */
  method CollectComments(pages: seq<ListedPage>) returns (all: seq<TaggedComment>)
    ensures all == Flatten(pages)
  {
    all := [];
    for k := 0 to |pages|
      invariant all == Flatten(pages[..k])
    {
      var page := pages[k];
      if page.comments.Some? && |page.comments.value| > 0 {
        var tagged := seq(|page.comments.value|, j requires 0 <= j < |page.comments.value| => TaggedComment(page.comments.value[j], page.title));
        all := all + tagged;
      }
      assert pages[..k + 1] == pages[..k] + [page];
      FlattenAppend(pages[..k], [page]);
      assert Flatten([page]) == Contribution(page) by {
        assert [page][1..] == [];
      }
    }
    assert pages[..|pages|] == pages;
  }

  /** A page of GET `/pages` as the panel receives it: the route sends a comment count, not the comments. */
  function AsServed(item: PagesRoute.PageItem): ListedPage {
    ListedPage(item.page.id, item.page.title, None)
  }

  /** The comments tab, fed by GET `/pages` as written: the list is always empty. */
  lemma CommentsTabEmptyAsServed(items: seq<PagesRoute.PageItem>)
    ensures Flatten(seq(|items|, i requires 0 <= i < |items| => AsServed(items[i]))) == []
  {
    WithoutCommentsContributeNothing(seq(|items|, i requires 0 <= i < |items| => AsServed(items[i])));
  }

  /** A page as the comments tab needs it: the listed page together with its comments. */
  function WithComments(item: PagesRoute.PageItem, comments: map<int, Comment>, nc: int): ListedPage {
    ListedPage(item.page.id, item.page.title, Some(Filter(Rows(comments, nc), PagesRoute.IsCommentOf(item.page.id))))
  }

  /** The comment is stored, under its own id. */
  ghost predicate Stored(comments: map<int, Comment>, c: Comment) {
    c.id in comments && comments[c.id] == c
  }

  /** One page's comments, as the tab needs them: exactly the stored comments of that page. */
  lemma WithCommentsHolds(item: PagesRoute.PageItem, comments: map<int, Comment>, nc: int, c: Comment)
    requires Keyed(comments, nc, CommentId)
    ensures c in WithComments(item, comments, nc).comments.value <==> Stored(comments, c) && c.pageId == item.page.id
  {
    PagesRoute.CommentCountCounts(comments, nc, item.page.id);
    RowsStored(comments, nc, CommentId);
    if Stored(comments, c) && c.pageId == item.page.id {
      assert comments[c.id] in Filter(Rows(comments, nc), PagesRoute.IsCommentOf(item.page.id));
    }
  }

  /** The pages of a list response, each with its comments. */
  function ListedWithComments(items: seq<PagesRoute.PageItem>, comments: map<int, Comment>, nc: int): (r: seq<ListedPage>)
    ensures |r| == |items|
    ensures forall i :: 0 <= i < |items| ==> r[i] == WithComments(items[i], comments, nc)
  {
    seq(|items|, i requires 0 <= i < |items| => WithComments(items[i], comments, nc))
  }

  /** Some listed page has the title and owns the comment. */
  ghost predicate OwnedByListed(items: seq<PagesRoute.PageItem>, comments: map<int, Comment>, x: TaggedComment) {
    exists i :: 0 <= i < |items| && x.pageTitle == items[i].page.title
                && Stored(comments, x.comment) && x.comment.pageId == items[i].page.id
  }

  /**
   * With each listed page carrying its comments, the tab lists every
   * comment of every listed page, tagged with its page's title, and nothing else.
   */
  lemma CommentsTabListsAllComments(items: seq<PagesRoute.PageItem>, comments: map<int, Comment>, nc: int, x: TaggedComment)
    requires Keyed(comments, nc, CommentId)
    ensures x in Flatten(ListedWithComments(items, comments, nc)) <==> OwnedByListed(items, comments, x)
  {
    var listed := ListedWithComments(items, comments, nc);
    FlattenMembers(listed, x);
    if x in Flatten(listed) {
      var i :| 0 <= i < |listed| && listed[i].comments.Some? && listed[i].title == x.pageTitle
               && x.comment in listed[i].comments.value;
      WithCommentsHolds(items[i], comments, nc, x.comment);
    }
    if OwnedByListed(items, comments, x) {
      var i :| 0 <= i < |items| && x.pageTitle == items[i].page.title
               && Stored(comments, x.comment) && x.comment.pageId == items[i].page.id;
      WithCommentsHolds(items[i], comments, nc, x.comment);
      assert listed[i].comments.Some? && listed[i].title == x.pageTitle && x.comment in listed[i].comments.value;
    }
  }

  function PageKey(p: ListedPage): int { p.id }

  function CommentKey(c: TaggedComment): int { c.comment.id }

  datatype Tab = PagesTab | CommentsTab

  /** A deletion request the panel sends. */
  datatype Call = DeletePageCall(pageId: int) | DeleteCommentCall(commentId: int) | ListPagesCall(limit: int)

  const LoadFailed := "Ошибка при загрузке данных"
  const DeletePageFailed := "Ошибка при удалении страницы"
  const DeleteCommentFailed := "Ошибка при удалении комментария"

  class Panel {
    var activeTab: Tab
    var pages: seq<ListedPage>
    var comments: seq<TaggedComment>
    var loading: bool
    var error: string
    var calls: seq<Call>

    constructor ()
      ensures activeTab == PagesTab && pages == [] && comments == [] && loading && error == "" && calls == []
    {
      activeTab := PagesTab;
      pages := [];
      comments := [];
      loading := true;
      error := "";
      calls := [];
    }

    /**
     * `fetchData`: both tabs ask for the first 100 pages; the pages tab
     * keeps them, the comments tab keeps their flattened comments. A
     * failure sets the error and keeps both lists.
     */
    method FetchData(answer: Reply<seq<ListedPage>>)
      modifies this
      ensures calls == old(calls) + [ListPagesCall(100)] && !loading && activeTab == old(activeTab)
      ensures answer.Ok? && activeTab == PagesTab ==> pages == answer.value && comments == old(comments) && error == old(error)
      ensures answer.Ok? && activeTab == CommentsTab ==> comments == Flatten(answer.value) && pages == old(pages) && error == old(error)
      ensures answer.Err? ==> pages == old(pages) && comments == old(comments) && error == LoadFailed
    {
      loading := true;
      calls := calls + [ListPagesCall(100)];
      match answer {
        case Ok(listed) =>
          if activeTab == PagesTab {
            pages := listed;
          } else {
            comments := CollectComments(listed);
          }
        case Err(_) =>
          error := LoadFailed;
      }
      loading := false;
    }

    /**
     * `handleDeletePage`: a declined confirmation does nothing; otherwise
     * the request is sent and the page is removed from the list only when
     * it succeeds.
     */
    method DeletePage(pageId: int, confirmed: bool, answer: Reply<()>)
      modifies this
      ensures comments == old(comments) && activeTab == old(activeTab) && loading == old(loading)
      ensures !confirmed ==> pages == old(pages) && error == old(error) && calls == old(calls)
      ensures confirmed ==> calls == old(calls) + [DeletePageCall(pageId)]
      ensures confirmed && answer.Ok? ==> pages == Without(old(pages), PageKey, pageId) && error == old(error)
      ensures confirmed && answer.Err? ==> pages == old(pages) && error == DeletePageFailed
    {
      if !confirmed {
        return;
      }
      calls := calls + [DeletePageCall(pageId)];
      match answer {
        case Ok(_) =>
          pages := Without(pages, PageKey, pageId);
        case Err(_) =>
          error := DeletePageFailed;
      }
    }

    /** `handleDeleteComment`: as `DeletePage`, for the comment list. */
    method DeleteComment(commentId: int, confirmed: bool, answer: Reply<()>)
      modifies this
      ensures pages == old(pages) && activeTab == old(activeTab) && loading == old(loading)
      ensures !confirmed ==> comments == old(comments) && error == old(error) && calls == old(calls)
      ensures confirmed ==> calls == old(calls) + [DeleteCommentCall(commentId)]
      ensures confirmed && answer.Ok? ==> comments == Without(old(comments), CommentKey, commentId) && error == old(error)
      ensures confirmed && answer.Err? ==> comments == old(comments) && error == DeleteCommentFailed
    {
      if !confirmed {
        return;
      }
      calls := calls + [DeleteCommentCall(commentId)];
      match answer {
        case Ok(_) =>
          comments := Without(comments, CommentKey, commentId);
        case Err(_) =>
          error := DeleteCommentFailed;
      }
    }

    /** Switching tabs; the effect on `activeTab` then fetches again. */
    method SelectTab(tab: Tab)
      modifies this
      ensures activeTab == tab && pages == old(pages) && comments == old(comments)
      ensures error == old(error) && calls == old(calls) && loading == old(loading)
    {
      activeTab := tab;
    }
  }
}
