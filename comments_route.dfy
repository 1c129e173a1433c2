/**
 * The comment routes (backend/src/routes/comments.js): the body validator,
 * the per-page listing, creation after a page check, and deletion.
 */
module CommentsRoute {
  import opened Wrappers
  import opened Text
  import opened Numbers
  import opened Ordering
  import opened Http
  import opened Store

  const TextMessage := "Comment must be between 1 and 1000 characters"
  const PageIdMessage := "Valid page ID is required"

  /** The errors of `commentValidation`: text length after trimming, then `isInt({ min: 1 })` on the page id. */
  function CommentValidationErrors(text: string, pageId: string): seq<string> {
    (if 1 <= |Trim(text)| <= 1000 then [] else [TextMessage])
    + (if IsIntAtLeast(pageId, 1) then [] else [PageIdMessage])
  }

  /**
   * A comment passes exactly when its trimmed text is non-blank and at most
   * 1000 characters and its page id is an integer literal whose `parseInt`
   * is at least 1.
   */
  lemma CommentValidationIff(text: string, pageId: string)
    ensures CommentValidationErrors(text, pageId) == [] <==>
      && !IsBlank(text) && |Trim(text)| <= 1000
      && IsIntString(pageId) && ParseInt(pageId).Some? && ParseInt(pageId).value >= 1
  {
    if IsIntString(pageId) {
      IntStringParses(pageId);
    }
  }

  /** The validator is stricter than `parseInt`: trailing garbage is refused although it would parse. */
  lemma TrailingGarbageRefused()
    ensures ParseInt("12abc") == Some(12)
    ensures CommentValidationErrors("hello", "12abc") == [PageIdMessage]
  {
    GarbageParses();
    GarbageIsNotInt();
    HelloIsTrimmed();
  }

  lemma GarbageParses()
    ensures ParseInt("12abc") == Some(12)
  {
    assert NatToString(1) == "1";
    assert NatToString(12) == "12";
    assert NatToString(12) + "abc" == "12abc";
    ParseIntOfNatToString(12, "abc");
  }

  lemma GarbageIsNotInt()
    ensures !IsIntString("12abc")
  {
    assert Unsigned("12abc") == "12abc";
    assert !IsRadixDigit("12abc"[2], 10);
  }

  lemma HelloIsTrimmed()
    ensures Trim("hello") == "hello"
  {
    assert !IsSpace('h') && !IsSpace('o');
    assert TrimStart("hello") == "hello";
    assert TrimEnd("hello") == "hello";
  }

  function IsCommentOf(pageId: int): Comment -> bool {
    (c: Comment) => c.pageId == pageId
  }

  function CreatedAt(c: Comment): int { c.createdAt }

  /** GET `/page/:pageId`: 400 on a non-numeric id, else the page's comments newest first. */
  function ListPageComments(comments: map<int, Comment>, next: int, pageIdParam: string)
    : (r: Response<seq<Comment>>)
    ensures ParseInt(pageIdParam).None? ==> r == Error(400, "Invalid page ID")
    ensures ParseInt(pageIdParam).Some? ==> r.Reply? && r.status == 200
  {
    match ParseInt(pageIdParam)
    case None => Error(400, "Invalid page ID")
    case Some(pageId) => Reply(200, Query(comments, next, IsCommentOf(pageId), CreatedAt))
  }

  /**
   * The listing holds every comment of the page (top-level comments and
   * replies alike) and nothing else, each once, newest first.
   */
  lemma ListPageCommentsCorrect(comments: map<int, Comment>, next: int, pageIdParam: string)
    requires Keyed(comments, next, CommentId)
    requires ParseInt(pageIdParam).Some?
    ensures var r := ListPageComments(comments, next, pageIdParam);
      && SortedDesc(r.body, CreatedAt)
      && NoDuplicates(r.body)
      && (forall c :: c in r.body ==> c in comments.Values && c.pageId == ParseInt(pageIdParam).value)
      && (forall k :: k in comments && comments[k].pageId == ParseInt(pageIdParam).value ==> comments[k] in r.body)
  {
    QueryCorrect(comments, next, IsCommentOf(ParseInt(pageIdParam).value), CreatedAt, CommentId);
  }

  /**
   * POST `/`: validation (400), then the page check (404), then one insert
   * with the trimmed text, the page id and the requester as author.
   */
  method CreateComment(db: Database, text: string, pageId: string, requester: int, now: int)
    returns (r: Response<Comment>)
    requires db.Valid()
    modifies db`comments, db`nextCommentId
    ensures db.Valid()
    ensures CommentValidationErrors(text, pageId) != [] ==>
      r == Invalid(CommentValidationErrors(text, pageId)) && db.comments == old(db.comments)
      && db.nextCommentId == old(db.nextCommentId)
    ensures CommentValidationErrors(text, pageId) == [] ==> IsIntString(pageId)
    ensures CommentValidationErrors(text, pageId) == [] && IntValue(pageId) !in db.pages ==>
      r == Error(404, "Page not found") && db.comments == old(db.comments) && db.nextCommentId == old(db.nextCommentId)
    ensures CommentValidationErrors(text, pageId) == [] && IntValue(pageId) in db.pages ==>
      var c := Comment(old(db.nextCommentId), Trim(text), IntValue(pageId), requester, None, now);
      r == Reply(201, c) && db.comments == old(db.comments)[c.id := c] && db.nextCommentId == old(db.nextCommentId) + 1
  {
    var errors := CommentValidationErrors(text, pageId);
    if errors != [] {
      return Invalid(errors);
    }
    IntStringParses(pageId);
    var target := ParseInt(pageId).value;
    if target !in db.pages {
      return Error(404, "Page not found");
    }
    var c := Comment(db.nextCommentId, Trim(text), target, requester, None, now);
    KeyedInsert(db.comments, db.nextCommentId, CommentId, c);
    db.comments := db.comments[c.id := c];
    db.nextCommentId := db.nextCommentId + 1;
    r := Reply(201, c);
  }

  /** DELETE `/:id`: 400 on a non-numeric id, 404 when absent, else that comment alone is removed. */
  method DeleteComment(db: Database, idParam: string) returns (r: Response<string>)
    requires db.Valid()
    modifies db`comments
    ensures db.Valid()
    ensures ParseInt(idParam).None? ==> r == Error(400, "Invalid comment ID") && db.comments == old(db.comments)
    ensures ParseInt(idParam).Some? && ParseInt(idParam).value !in old(db.comments) ==>
      r == Error(404, "Comment not found") && db.comments == old(db.comments)
    ensures ParseInt(idParam).Some? && ParseInt(idParam).value in old(db.comments) ==>
      r == Reply(200, "Comment deleted successfully") && db.comments == old(db.comments) - {ParseInt(idParam).value}
  {
    var parsed := ParseInt(idParam);
    if parsed.None? {
      return Error(400, "Invalid comment ID");
    }
    var id := parsed.value;
    if id !in db.comments {
      return Error(404, "Comment not found");
    }
    KeyedRemove(db.comments, db.nextCommentId, CommentId, id);
    db.comments := db.comments - {id};
    r := Reply(200, "Comment deleted successfully");
  }
}
