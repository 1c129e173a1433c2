/**
 * The page routes (backend/src/routes/pages.js): the body validator, the
 * paginated and filtered listing, the most-commented listing, a page with its
 * comment threads, and creation, update and deletion by an administrator.
 */
module PagesRoute {
  import opened Wrappers
  import opened Text
  import opened Numbers
  import opened Ordering
  import opened Http
  import opened Store

  const TitleMessage := "Title is required"
  const ContentMessage := "Content must be at least 10 characters"
  const CategoryIdMessage := "Valid category ID is required"
  const ImagePathMessage := "Image path is required"

  /** The errors of `pageValidation`, one per failing field, in field order. */
  function PageValidationErrors(title: string, content: string, categoryId: string, imagePath: string)
    : seq<string>
  {
    (if |Trim(title)| >= 1 then [] else [TitleMessage])
    + (if |Trim(content)| >= 10 then [] else [ContentMessage])
    + (if IsIntAtLeast(categoryId, 1) then [] else [CategoryIdMessage])
    + (if !IsBlank(imagePath) then [] else [ImagePathMessage])
  }

  /** The four messages differ, so each one in the list names its own field. */
  lemma {:induction false} MessagesPerField(t: bool, c: bool, i: bool, p: bool)
    ensures var e := (if t then [] else [TitleMessage]) + (if c then [] else [ContentMessage])
                     + (if i then [] else [CategoryIdMessage]) + (if p then [] else [ImagePathMessage]);
      && (TitleMessage in e <==> !t) && (ContentMessage in e <==> !c)
      && (CategoryIdMessage in e <==> !i) && (ImagePathMessage in e <==> !p)
      && (e == [] <==> t && c && i && p)
  {
    assert TitleMessage[0] == 'T' && ContentMessage[0] == 'C';
    assert CategoryIdMessage[0] == 'V' && ImagePathMessage[0] == 'I';
  }

  /** Each message is reported exactly when its field fails, so the body passes exactly when all four hold. */
  lemma PageValidationIff(title: string, content: string, categoryId: string, imagePath: string)
    ensures var e := PageValidationErrors(title, content, categoryId, imagePath);
      && (TitleMessage in e <==> IsBlank(title))
      && (ContentMessage in e <==> |Trim(content)| < 10)
      && (CategoryIdMessage in e <==> !(IsIntString(categoryId) && ParseInt(categoryId).Some? && ParseInt(categoryId).value >= 1))
      && (ImagePathMessage in e <==> IsBlank(imagePath))
      && (e == [] <==> !IsBlank(title) && |Trim(content)| >= 10 && IsIntAtLeast(categoryId, 1) && !IsBlank(imagePath))
  {
    var ok := IsIntAtLeast(categoryId, 1);
    if IsIntString(categoryId) {
      IntStringParses(categoryId);
    }
    assert ok <==> IsIntString(categoryId) && ParseInt(categoryId).Some? && ParseInt(categoryId).value >= 1;
    MessagesPerField(|Trim(title)| >= 1, |Trim(content)| >= 10, ok, !IsBlank(imagePath));
  }

  /** `parseInt(q) || fallback`: NaN and 0 are both falsy. */
  function QueryNumber(q: string, fallback: int): int {
    match ParseInt(q)
    case Some(n) => if n != 0 then n else fallback
    case None => fallback
  }

  /**
   * A missing (empty), non-numeric or zero query value falls back to the
   * default, the decimal rendering of a positive number reads back as that
   * number, and the result is never 0 when the default is not.
   */
  lemma QueryNumberDefaults(n: nat, fallback: int)
    ensures QueryNumber("", fallback) == fallback
    ensures QueryNumber("0", fallback) == fallback
    ensures QueryNumber("page", fallback) == fallback
    ensures n > 0 ==> QueryNumber(NatToString(n), fallback) == n
    ensures fallback != 0 ==> forall q :: QueryNumber(q, fallback) != 0
  {
    ParseIntOfEmpty();
    ParseIntOfNonDigit("page");
    ParseIntOfNat(0);
    assert NatToString(0) == "0";
    ParseIntOfNat(n);
  }

  /**
   * The store's `skip`/`take` over an ordered list: a non-negative `take`
   * keeps at most `take` elements after the first `skip`; a negative one
   * counts both from the end of the list and keeps the list's order.
   */
  function Take<T(==,!new)>(s: seq<T>, skip: nat, take: int): seq<T> {
    if take >= 0 then Window(s, skip, take) else Reverse(Window(Reverse(s), skip, -take))
  }

  /** Partner of `Take`: what it keeps is one contiguous stretch of at most `|take|` elements. */
  lemma TakeIsSlice<T(!new)>(s: seq<T>, skip: nat, take: int) returns (lo: nat, hi: nat)
    ensures lo <= hi <= |s| && Take(s, skip, take) == s[lo..hi]
    ensures hi - lo <= if take >= 0 then take else -take
    ensures take >= 0 ==> lo == if skip < |s| then skip else |s|
    ensures take < 0 ==> hi == if skip < |s| then |s| - skip else 0
  {
    if take >= 0 {
      lo := if skip < |s| then skip else |s|;
      hi := lo + |Window(s, skip, take)|;
    } else {
      var w := Window(Reverse(s), skip, -take);
      hi := if skip < |s| then |s| - skip else 0;
      lo := hi - |w|;
      ReversedWindow(s, skip, -take, lo, hi);
    }
  }

  lemma ReversedWindow<T(!new)>(s: seq<T>, skip: nat, n: nat, lo: nat, hi: nat)
    requires hi == (if skip < |s| then |s| - skip else 0)
    requires lo + |Window(Reverse(s), skip, n)| == hi
    ensures Reverse(Window(Reverse(s), skip, n)) == s[lo..hi]
  {
    var w := Window(Reverse(s), skip, n);
    var r := Reverse(w);
    forall j | 0 <= j < |r| ensures r[j] == s[lo..hi][j] {
      assert r[j] == w[|w| - 1 - j];
      assert w[|w| - 1 - j] == Reverse(s)[skip + |w| - 1 - j];
    }
  }

  /** `Math.ceil(total / limit)` for a non-zero limit. */
  function PageCount(total: nat, limit: int): int
    requires limit != 0
  {
    if limit > 0 then CeilDiv(total, limit) else -(total / -limit)
  }

  /** The listing filter: `categoryId` when given, and the search text when given. */
  datatype Where = Where(categoryId: Option<int>, search: Option<string>)

  /**
   * The `where` object of GET `/`: an empty query value adds no condition; a
   * category that `parseInt` cannot read is passed on as NaN, which the store
   * rejects (`None` here).
   */
  function BuildWhere(categoryQ: string, searchQ: string): (r: Option<Where>)
    ensures r.None? <==> categoryQ != [] && ParseInt(categoryQ).None?
    ensures r.Some? ==> (r.value.categoryId.None? <==> categoryQ == [])
    ensures r.Some? && categoryQ != [] ==> r.value.categoryId == ParseInt(categoryQ)
    ensures r.Some? ==> r.value.search == if searchQ == [] then None else Some(searchQ)
  {
    var search := if searchQ == [] then None else Some(searchQ);
    if categoryQ == [] then Some(Where(None, search))
    else match ParseInt(categoryQ)
      case None => None
      case Some(c) => Some(Where(Some(c), search))
  }

  /** The title or content contains the search text, ignoring case. */
  predicate MentionsText(p: Page, search: string) {
    Contains(ToLower(p.title), ToLower(search)) || Contains(ToLower(p.content), ToLower(search))
  }

  predicate Matches(w: Where, p: Page) {
    && (w.categoryId.Some? ==> p.categoryId == w.categoryId.value)
    && (w.search.Some? ==> MentionsText(p, w.search.value))
  }

  function MatchesFn(w: Where): Page -> bool {
    (p: Page) => Matches(w, p)
  }

  function PageCreatedAt(p: Page): int { p.createdAt }

  function IsCommentOf(pageId: int): Comment -> bool {
    (c: Comment) => c.pageId == pageId
  }

  /** `_count.comments`: the comments of the page, replies included. */
  function CommentCount(comments: map<int, Comment>, nc: int, pageId: int): nat {
    |Filter(Rows(comments, nc), IsCommentOf(pageId))|
  }

  /** The list it counts holds every comment of the page and nothing else, each once. */
  lemma CommentCountCounts(comments: map<int, Comment>, nc: int, pageId: int)
    requires Keyed(comments, nc, CommentId)
    ensures var f := Filter(Rows(comments, nc), IsCommentOf(pageId));
      && CommentCount(comments, nc, pageId) == |f| && NoDuplicates(f)
      && (forall c :: c in f ==> c in comments.Values && c.pageId == pageId)
      && (forall k :: k in comments && comments[k].pageId == pageId ==> comments[k] in f)
  {
    FilterRowsCorrect(comments, nc, IsCommentOf(pageId), CommentId);
  }

  datatype PageItem = PageItem(page: Page, commentCount: nat)

  /** Each page with its comment count, in the same order. */
  function Items(ps: seq<Page>, comments: map<int, Comment>, nc: int): (r: seq<PageItem>)
    ensures |r| == |ps|
    ensures forall i :: 0 <= i < |r| ==> r[i] == PageItem(ps[i], CommentCount(comments, nc, ps[i].id))
  {
    seq(|ps|, i requires 0 <= i < |ps| => PageItem(ps[i], CommentCount(comments, nc, ps[i].id)))
  }

  datatype Pagination = Pagination(page: int, limit: int, total: nat, pages: int)

  datatype PageList = PageList(pages: seq<PageItem>, pagination: Pagination)

  /** The pages matching the filter, newest first. */
  function Matched(pages: map<int, Page>, np: int, w: Where): seq<Page> {
    Query(pages, np, MatchesFn(w), PageCreatedAt)
  }

  /**
   * GET `/`: `page` and `limit` default to 1 and 12, `skip` is
   * `(page - 1) * limit`, which the store refuses when negative; the page of
   * results comes with the count of all matches and the number of pages.
   */
  function ListPages(
    pages: map<int, Page>, np: int, comments: map<int, Comment>, nc: int,
    pageQ: string, limitQ: string, categoryQ: string, searchQ: string): (r: Response<PageList>)
    ensures r.Fail? <==>
      BuildWhere(categoryQ, searchQ).None? || (QueryNumber(pageQ, 1) - 1) * QueryNumber(limitQ, 12) < 0
    ensures r.Fail? ==> r == ServerError()
    ensures r.Reply? ==>
      && r.status == 200
      && r.body.pagination.page == QueryNumber(pageQ, 1)
      && r.body.pagination.limit == QueryNumber(limitQ, 12)
  {
    var page := QueryNumber(pageQ, 1);
    var limit := QueryNumber(limitQ, 12);
    QueryNumberDefaults(0, 12);
    var skip := (page - 1) * limit;
    match BuildWhere(categoryQ, searchQ)
    case None => ServerError()
    case Some(w) =>
      if skip < 0 then ServerError()
      else
        var matched := Matched(pages, np, w);
        Reply(200, PageList(
          Items(Take(matched, skip, limit), comments, nc),
          Pagination(page, limit, |matched|, PageCount(|matched|, limit))))
  }

  /** The page of results and its pagination, as GET `/` computes them once the filter is built. */
  lemma ListPagesBody(
    pages: map<int, Page>, np: int, comments: map<int, Comment>, nc: int,
    pageQ: string, limitQ: string, categoryQ: string, searchQ: string)
    requires ListPages(pages, np, comments, nc, pageQ, limitQ, categoryQ, searchQ).Reply?
    ensures var r := ListPages(pages, np, comments, nc, pageQ, limitQ, categoryQ, searchQ).body;
      var limit := QueryNumber(limitQ, 12);
      var skip := (QueryNumber(pageQ, 1) - 1) * limit;
      var matched := Matched(pages, np, BuildWhere(categoryQ, searchQ).value);
      && skip >= 0 && limit != 0
      && r.pages == Items(Take(matched, skip, limit), comments, nc)
      && r.pagination.total == |matched|
      && r.pagination.pages == PageCount(|matched|, limit)
  {
    QueryNumberDefaults(0, 12);
  }

  /**
   * A listed page is a stored page that matches the filter, listed with its
   * comment count, and consecutive entries are newest first.
   */
  lemma ListPagesShown(
    pages: map<int, Page>, np: int, comments: map<int, Comment>, nc: int,
    pageQ: string, limitQ: string, categoryQ: string, searchQ: string)
    requires Keyed(pages, np, PageId)
    requires ListPages(pages, np, comments, nc, pageQ, limitQ, categoryQ, searchQ).Reply?
    ensures var r := ListPages(pages, np, comments, nc, pageQ, limitQ, categoryQ, searchQ).body.pages;
      var w := BuildWhere(categoryQ, searchQ).value;
      && (forall i :: 0 <= i < |r| ==>
            && r[i].page in pages.Values && Matches(w, r[i].page)
            && r[i].commentCount == CommentCount(comments, nc, r[i].page.id))
      && (forall i, j :: 0 <= i < j < |r| ==> r[i].page.createdAt >= r[j].page.createdAt)
  {
    ListPagesBody(pages, np, comments, nc, pageQ, limitQ, categoryQ, searchQ);
    var limit := QueryNumber(limitQ, 12);
    ItemsShown(pages, np, comments, nc, BuildWhere(categoryQ, searchQ).value, (QueryNumber(pageQ, 1) - 1) * limit, limit);
  }

  /**
   * At most `|limit|` pages are listed, and for a positive limit they are the
   * matches that follow the first `skip`, in order.
   */
  lemma ListPagesWindow(
    pages: map<int, Page>, np: int, comments: map<int, Comment>, nc: int,
    pageQ: string, limitQ: string, categoryQ: string, searchQ: string)
    requires Keyed(pages, np, PageId)
    requires ListPages(pages, np, comments, nc, pageQ, limitQ, categoryQ, searchQ).Reply?
    ensures var r := ListPages(pages, np, comments, nc, pageQ, limitQ, categoryQ, searchQ).body.pages;
      var matched := Matched(pages, np, BuildWhere(categoryQ, searchQ).value);
      var limit := QueryNumber(limitQ, 12);
      var skip := (QueryNumber(pageQ, 1) - 1) * limit;
      && |r| <= (if limit >= 0 then limit else -limit)
      && (limit > 0 ==> forall i :: 0 <= i < |r| ==> skip + i < |matched| && r[i].page == matched[skip + i])
  {
    ListPagesBody(pages, np, comments, nc, pageQ, limitQ, categoryQ, searchQ);
    var limit := QueryNumber(limitQ, 12);
    ItemsShown(pages, np, comments, nc, BuildWhere(categoryQ, searchQ).value, (QueryNumber(pageQ, 1) - 1) * limit, limit);
  }

  lemma ItemsShown(
    pages: map<int, Page>, np: int, comments: map<int, Comment>, nc: int, w: Where, skip: nat, limit: int)
    requires Keyed(pages, np, PageId)
    ensures var r := Items(Take(Matched(pages, np, w), skip, limit), comments, nc);
      && (forall i :: 0 <= i < |r| ==>
            && r[i].page in pages.Values && Matches(w, r[i].page)
            && r[i].commentCount == CommentCount(comments, nc, r[i].page.id))
      && (forall i, j :: 0 <= i < j < |r| ==> r[i].page.createdAt >= r[j].page.createdAt)
      && |r| <= (if limit >= 0 then limit else -limit)
      && (limit > 0 ==> forall i :: 0 <= i < |r| ==>
            skip + i < |Matched(pages, np, w)| && r[i].page == Matched(pages, np, w)[skip + i])
  {
    var matched := Matched(pages, np, w);
    var shown := Take(matched, skip, limit);
    ShownCorrect(pages, np, w, skip, limit);
    var r := Items(shown, comments, nc);
    assert forall i :: 0 <= i < |r| ==> r[i].page == shown[i];
    forall i, j | 0 <= i < j < |r| ensures r[i].page.createdAt >= r[j].page.createdAt {
      assert PageCreatedAt(shown[i]) >= PageCreatedAt(shown[j]);
    }
  }

  /**
   * `total` is the length of the duplicate-free list of every stored page
   * that matches, and for a positive limit `pages` is the least number of
   * `limit`-sized pages that hold them.
   */
  lemma ListPagesTotals(
    pages: map<int, Page>, np: int, comments: map<int, Comment>, nc: int,
    pageQ: string, limitQ: string, categoryQ: string, searchQ: string)
    requires Keyed(pages, np, PageId)
    requires ListPages(pages, np, comments, nc, pageQ, limitQ, categoryQ, searchQ).Reply?
    ensures var r := ListPages(pages, np, comments, nc, pageQ, limitQ, categoryQ, searchQ).body.pagination;
      var w := BuildWhere(categoryQ, searchQ).value;
      var matched := Matched(pages, np, w);
      && r.total == |matched| && NoDuplicates(matched)
      && (forall x :: x in matched ==> x in pages.Values && Matches(w, x))
      && (forall k :: k in pages && Matches(w, pages[k]) ==> pages[k] in matched)
      && (r.limit > 0 ==> LeastCover(r.pages, r.limit, r.total))
  {
    ListPagesBody(pages, np, comments, nc, pageQ, limitQ, categoryQ, searchQ);
    var r := ListPages(pages, np, comments, nc, pageQ, limitQ, categoryQ, searchQ).body.pagination;
    var matched := Matched(pages, np, BuildWhere(categoryQ, searchQ).value);
    MatchedCorrect(pages, np, BuildWhere(categoryQ, searchQ).value);
    assert r.total == |matched|;
    if r.limit > 0 {
      assert r.pages == PageCount(|matched|, r.limit);
      PageCountCovers(|matched|, r.limit);
    }
  }

  /** The matches are every stored page the filter accepts, each once. */
  lemma MatchedCorrect(pages: map<int, Page>, np: int, w: Where)
    requires Keyed(pages, np, PageId)
    ensures var matched := Matched(pages, np, w);
      && NoDuplicates(matched)
      && (forall x :: x in matched ==> x in pages.Values && Matches(w, x))
      && (forall k :: k in pages && Matches(w, pages[k]) ==> pages[k] in matched)
  {
    QueryCorrect(pages, np, MatchesFn(w), PageCreatedAt, PageId);
  }

  /** For a positive limit, the page count is the least number of `limit`-sized pages holding `total` rows. */
  lemma PageCountCovers(total: nat, limit: int)
    requires limit > 0
    ensures LeastCover(PageCount(total, limit), limit, total)
  {
    CeilDivIsLeastCover(total, limit);
  }

  /** The stretch of matches a listing shows: stored, matching, newest first, at most `|limit|` of them. */
  lemma ShownCorrect(pages: map<int, Page>, np: int, w: Where, skip: nat, limit: int)
    requires Keyed(pages, np, PageId)
    ensures var matched := Matched(pages, np, w);
      var shown := Take(matched, skip, limit);
      && (forall i :: 0 <= i < |shown| ==> shown[i] in pages.Values && Matches(w, shown[i]))
      && SortedDesc(shown, PageCreatedAt)
      && |shown| <= (if limit >= 0 then limit else -limit)
      && (limit >= 0 ==> forall i :: 0 <= i < |shown| ==> skip + i < |matched| && shown[i] == matched[skip + i])
  {
    var matched := Matched(pages, np, w);
    QueryCorrect(pages, np, MatchesFn(w), PageCreatedAt, PageId);
    TakeKeeps(matched, skip, limit, PageCreatedAt, (x: Page) => x in pages.Values && Matches(w, x));
  }

  /**
   * What `Take` keeps of a sorted list whose elements all satisfy `p`: elements
   * satisfying `p`, sorted, at most `|take|` of them, and for a non-negative
   * `take` the ones right after the first `skip`.
   */
  lemma TakeKeeps<T(!new)>(s: seq<T>, skip: nat, take: int, key: T -> int, p: T -> bool)
    requires SortedDesc(s, key) && forall x :: x in s ==> p(x)
    ensures var t := Take(s, skip, take);
      && (forall i :: 0 <= i < |t| ==> p(t[i]))
      && SortedDesc(t, key)
      && |t| <= (if take >= 0 then take else -take)
      && (take >= 0 ==> forall i :: 0 <= i < |t| ==> skip + i < |s| && t[i] == s[skip + i])
  {
    var lo, hi := TakeIsSlice(s, skip, take);
    SliceSorted(s, lo, hi, key);
    SliceMembers(s, lo, hi);
    var t := Take(s, skip, take);
    forall i | 0 <= i < |t| ensures p(t[i]) {
      assert t[i] in s[lo..hi];
    }
    if take >= 0 {
      forall i | 0 <= i < |t| ensures skip + i < |s| && t[i] == s[skip + i] {
        assert t[i] == s[lo..hi][i];
      }
    }
  }

  function CommentCountKey(item: PageItem): int { item.commentCount }

  /** GET `/by-comments`: up to 100 pages, most commented first. */
  function ByComments(pages: map<int, Page>, np: int, comments: map<int, Comment>, nc: int): seq<PageItem> {
    Window(SortDesc(Items(Rows(pages, np), comments, nc), CommentCountKey), 0, 100)
  }

  /** At most 100 stored pages are listed, with their comment counts, most commented first. */
  lemma ByCommentsSorted(pages: map<int, Page>, np: int, comments: map<int, Comment>, nc: int)
    ensures var r := ByComments(pages, np, comments, nc);
      && |r| <= 100
      && SortedDesc(r, CommentCountKey)
      && (forall i :: 0 <= i < |r| ==>
            r[i].page in pages.Values && r[i].commentCount == CommentCount(comments, nc, r[i].page.id))
  {
    var items := Items(Rows(pages, np), comments, nc);
    var sorted := SortDesc(items, CommentCountKey);
    SortDescCorrect(items, CommentCountKey);
    var r := Window(sorted, 0, 100);
    SliceSorted(sorted, 0, |r|, CommentCountKey);
    assert r == sorted[0..|r|];
    forall i | 0 <= i < |r|
      ensures r[i].page in pages.Values && r[i].commentCount == CommentCount(comments, nc, r[i].page.id)
    {
      assert r[i] in items;
      var j :| 0 <= j < |items| && items[j] == r[i];
    }
  }

  /**
   * A stored page that is left out has no more comments than any page
   * listed, and a page is only left out when 100 are listed.
   */
  lemma ByCommentsTop(pages: map<int, Page>, np: int, comments: map<int, Comment>, nc: int, k: int)
    requires Keyed(pages, np, PageId)
    requires k in pages
    requires PageItem(pages[k], CommentCount(comments, nc, k)) !in ByComments(pages, np, comments, nc)
    ensures var r := ByComments(pages, np, comments, nc);
      |r| == 100 && forall i :: 0 <= i < |r| ==> r[i].commentCount >= CommentCount(comments, nc, k)
  {
    var rows := Rows(pages, np);
    var items := Items(rows, comments, nc);
    var sorted := SortDesc(items, CommentCountKey);
    SortDescCorrect(items, CommentCountKey);
    RowsContainsKey(pages, np, k);
    var item := PageItem(pages[k], CommentCount(comments, nc, k));
    var j :| 0 <= j < |rows| && rows[j] == pages[k];
    assert items[j] == item;
    TopWindow(sorted, CommentCountKey, 100, item);
  }

  /** A top-level comment with its replies. */
  datatype Thread = Thread(comment: Comment, replies: seq<Comment>)

  datatype PageDetail = PageDetail(page: Page, comments: seq<Thread>)

  function CreatedAt(c: Comment): int { c.createdAt }

  /** Ascending order of creation, as a key that sorts newest last. */
  function OldestFirst(c: Comment): int { -c.createdAt }

  function IsTopLevelOf(pageId: int): Comment -> bool {
    (c: Comment) => c.pageId == pageId && c.parentId.None?
  }

  function IsReplyTo(id: int): Comment -> bool {
    (c: Comment) => c.parentId == Some(id)
  }

  /** The `replies` relation of a comment, oldest first. */
  function Replies(comments: map<int, Comment>, nc: int, id: int): seq<Comment> {
    Query(comments, nc, IsReplyTo(id), OldestFirst)
  }

  /** The page's top-level comments, newest first. */
  function TopLevel(comments: map<int, Comment>, nc: int, pageId: int): seq<Comment> {
    Query(comments, nc, IsTopLevelOf(pageId), CreatedAt)
  }

  /** Each comment with its replies, in the same order. */
  function ThreadsOf(tops: seq<Comment>, comments: map<int, Comment>, nc: int): (r: seq<Thread>)
    ensures |r| == |tops|
    ensures forall i :: 0 <= i < |r| ==> r[i] == Thread(tops[i], Replies(comments, nc, tops[i].id))
  {
    seq(|tops|, i requires 0 <= i < |tops| => Thread(tops[i], Replies(comments, nc, tops[i].id)))
  }

  function Threads(comments: map<int, Comment>, nc: int, pageId: int): seq<Thread> {
    ThreadsOf(TopLevel(comments, nc, pageId), comments, nc)
  }

  /** GET `/:id`: 400 on a non-numeric id, 404 when absent, else the page with its threads. */
  function GetPage(pages: map<int, Page>, comments: map<int, Comment>, nc: int, idParam: string)
    : (r: Response<PageDetail>)
    ensures ParseInt(idParam).None? ==> r == Error(400, "Invalid page ID")
    ensures ParseInt(idParam).Some? && ParseInt(idParam).value !in pages ==> r == Error(404, "Page not found")
    ensures ParseInt(idParam).Some? && ParseInt(idParam).value in pages ==>
      && r.Reply? && r.status == 200 && r.body.page == pages[ParseInt(idParam).value]
      && r.body.comments == Threads(comments, nc, ParseInt(idParam).value)
  {
    match ParseInt(idParam)
    case None => Error(400, "Invalid page ID")
    case Some(id) =>
      if id !in pages then Error(404, "Page not found")
      else Reply(200, PageDetail(pages[id], Threads(comments, nc, id)))
  }

  /** `ts` holds the page's top-level comments, each once, newest first. */
  predicate ThreadsListed(ts: seq<Thread>, comments: map<int, Comment>, pageId: int) {
    && (forall i, j :: 0 <= i < j < |ts| ==> ts[i].comment.createdAt >= ts[j].comment.createdAt)
    && (forall i, j :: 0 <= i < j < |ts| ==> ts[i].comment != ts[j].comment)
    && (forall i :: 0 <= i < |ts| ==>
          ts[i].comment in comments.Values && ts[i].comment.pageId == pageId && ts[i].comment.parentId.None?)
    && (forall k :: k in comments && comments[k].pageId == pageId && comments[k].parentId.None? ==>
          exists i :: 0 <= i < |ts| && ts[i].comment == comments[k])
  }

  /** The threads are exactly the page's top-level comments, each once, newest first. */
  lemma ThreadsCorrect(comments: map<int, Comment>, nc: int, pageId: int)
    requires Keyed(comments, nc, CommentId)
    ensures ThreadsListed(Threads(comments, nc, pageId), comments, pageId)
  {
    var tops := TopLevel(comments, nc, pageId);
    QueryCorrect(comments, nc, IsTopLevelOf(pageId), CreatedAt, CommentId);
    ThreadsOfTops(tops, comments, nc, pageId);
  }

  lemma ThreadsOfTops(tops: seq<Comment>, comments: map<int, Comment>, nc: int, pageId: int)
    requires SortedDesc(tops, CreatedAt) && NoDuplicates(tops)
    requires forall c :: c in tops ==> c in comments.Values && IsTopLevelOf(pageId)(c)
    requires forall k :: k in comments && IsTopLevelOf(pageId)(comments[k]) ==> comments[k] in tops
    ensures ThreadsListed(ThreadsOf(tops, comments, nc), comments, pageId)
  {
    var ts := ThreadsOf(tops, comments, nc);
    forall k | k in comments && comments[k].pageId == pageId && comments[k].parentId.None?
      ensures exists i :: 0 <= i < |ts| && ts[i].comment == comments[k]
    {
      assert IsTopLevelOf(pageId)(comments[k]);
      var i :| 0 <= i < |tops| && tops[i] == comments[k];
      assert ts[i].comment == comments[k];
    }
    forall i | 0 <= i < |ts|
      ensures ts[i].comment in comments.Values && ts[i].comment.pageId == pageId && ts[i].comment.parentId.None?
    {
      assert ts[i].comment == tops[i] && tops[i] in tops;
    }
  }

  /** The replies of a comment are exactly the comments answering it, each once, oldest first. */
  lemma RepliesCorrect(comments: map<int, Comment>, nc: int, id: int)
    requires Keyed(comments, nc, CommentId)
    ensures var rs := Replies(comments, nc, id);
      && NoDuplicates(rs)
      && (forall a, b :: 0 <= a < b < |rs| ==> rs[a].createdAt <= rs[b].createdAt)
      && (forall c :: c in rs ==> c in comments.Values && c.parentId == Some(id))
      && (forall k :: k in comments && comments[k].parentId == Some(id) ==> comments[k] in rs)
  {
    QueryCorrect(comments, nc, IsReplyTo(id), OldestFirst, CommentId);
  }

  /** The body of a successful create or update. */
  datatype Saved = Saved(message: string, page: Page)

  /**
   * POST `/`: validation (400), then the category check (400 "Category not
   * found"), then one insert of the trimmed fields with the requester as
   * author.
   */
  method CreatePage(
    db: Database, title: string, content: string, categoryId: string, imagePath: string,
    requester: int, now: int) returns (r: Response<Saved>)
    requires db.Valid()
    modifies db`pages, db`nextPageId
    ensures db.Valid()
    ensures PageValidationErrors(title, content, categoryId, imagePath) != [] ==>
      r == Invalid(PageValidationErrors(title, content, categoryId, imagePath)) && db.pages == old(db.pages)
      && db.nextPageId == old(db.nextPageId)
    ensures PageValidationErrors(title, content, categoryId, imagePath) == [] ==> IsIntString(categoryId)
    ensures PageValidationErrors(title, content, categoryId, imagePath) == [] && IntValue(categoryId) !in db.categories ==>
      r == Error(400, "Category not found") && db.pages == old(db.pages) && db.nextPageId == old(db.nextPageId)
    ensures PageValidationErrors(title, content, categoryId, imagePath) == [] && IntValue(categoryId) in db.categories ==>
      var p := Page(old(db.nextPageId), Trim(title), Trim(content), Trim(imagePath), IntValue(categoryId), requester, now);
      r == Reply(201, Saved("Page created successfully", p)) && db.pages == old(db.pages)[p.id := p]
      && db.nextPageId == old(db.nextPageId) + 1
  {
    var errors := PageValidationErrors(title, content, categoryId, imagePath);
    if errors != [] {
      return Invalid(errors);
    }
    IntStringParses(categoryId);
    var category := ParseInt(categoryId).value;
    if category !in db.categories {
      return Error(400, "Category not found");
    }
    var p := Page(db.nextPageId, Trim(title), Trim(content), Trim(imagePath), category, requester, now);
    KeyedInsert(db.pages, db.nextPageId, PageId, p);
    db.pages := db.pages[p.id := p];
    db.nextPageId := db.nextPageId + 1;
    r := Reply(201, Saved("Page created successfully", p));
  }

  /**
   * PUT `/:id`: validation (400), the id (400), the page (404), the category
   * (400), in that order; then the page's editable fields are replaced and its
   * id, author and creation time kept.
   */
  method UpdatePage(
    db: Database, idParam: string, title: string, content: string, categoryId: string, imagePath: string)
    returns (r: Response<Saved>)
    requires db.Valid()
    modifies db`pages
    ensures db.Valid()
    ensures PageValidationErrors(title, content, categoryId, imagePath) != [] ==>
      r == Invalid(PageValidationErrors(title, content, categoryId, imagePath)) && db.pages == old(db.pages)
      && db.nextPageId == old(db.nextPageId)
    ensures PageValidationErrors(title, content, categoryId, imagePath) == [] && ParseInt(idParam).None? ==>
      r == Error(400, "Invalid page ID") && db.pages == old(db.pages)
    ensures && PageValidationErrors(title, content, categoryId, imagePath) == [] && ParseInt(idParam).Some?
            && ParseInt(idParam).value !in old(db.pages) ==>
      r == Error(404, "Page not found") && db.pages == old(db.pages)
    ensures && PageValidationErrors(title, content, categoryId, imagePath) == [] && ParseInt(idParam).Some?
            && ParseInt(idParam).value in old(db.pages) && IntValue(categoryId) !in db.categories ==>
      r == Error(400, "Category not found") && db.pages == old(db.pages) && db.nextPageId == old(db.nextPageId)
    ensures && PageValidationErrors(title, content, categoryId, imagePath) == [] && ParseInt(idParam).Some?
            && ParseInt(idParam).value in old(db.pages) && IntValue(categoryId) in db.categories ==>
      var before := old(db.pages)[ParseInt(idParam).value];
      var p := Page(before.id, Trim(title), Trim(content), Trim(imagePath), IntValue(categoryId),
                    before.createdById, before.createdAt);
      r == Reply(200, Saved("Page updated successfully", p)) && db.pages == old(db.pages)[before.id := p]
  {
    var errors := PageValidationErrors(title, content, categoryId, imagePath);
    if errors != [] {
      return Invalid(errors);
    }
    var parsed := ParseInt(idParam);
    if parsed.None? {
      return Error(400, "Invalid page ID");
    }
    var id := parsed.value;
    if id !in db.pages {
      return Error(404, "Page not found");
    }
    IntStringParses(categoryId);
    var category := ParseInt(categoryId).value;
    if category !in db.categories {
      return Error(400, "Category not found");
    }
    var before := db.pages[id];
    var p := Page(before.id, Trim(title), Trim(content), Trim(imagePath), category, before.createdById, before.createdAt);
    KeyedUpdate(db.pages, db.nextPageId, PageId, id, p);
    db.pages := db.pages[id := p];
    r := Reply(200, Saved("Page updated successfully", p));
  }

  /** DELETE `/:id`: 400 on a non-numeric id, 404 when absent, else that page alone is removed. */
  method DeletePage(db: Database, idParam: string) returns (r: Response<string>)
    requires db.Valid()
    modifies db`pages
    ensures db.Valid()
    ensures ParseInt(idParam).None? ==> r == Error(400, "Invalid page ID") && db.pages == old(db.pages)
    ensures ParseInt(idParam).Some? && ParseInt(idParam).value !in old(db.pages) ==>
      r == Error(404, "Page not found") && db.pages == old(db.pages)
    ensures ParseInt(idParam).Some? && ParseInt(idParam).value in old(db.pages) ==>
      r == Reply(200, "Page deleted successfully") && db.pages == old(db.pages) - {ParseInt(idParam).value}
  {
    var parsed := ParseInt(idParam);
    if parsed.None? {
      return Error(400, "Invalid page ID");
    }
    var id := parsed.value;
    if id !in db.pages {
      return Error(404, "Page not found");
    }
    KeyedRemove(db.pages, db.nextPageId, PageId, id);
    db.pages := db.pages - {id};
    r := Reply(200, "Page deleted successfully");
  }
}
