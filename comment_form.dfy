/**
 * The comment box (frontend/src/components/CommentForm.jsx): the client
 * checks on the text, the request it sends, and the state it leaves. The
 * API call is I/O: its answer is a parameter and the requests sent are
 * recorded in `requests`.
 */
module CommentForm {
  import opened Wrappers
  import opened Text
  import opened Numbers
  import CommentsRoute

  const Empty := "Комментарий не может быть пустым"
  const TooLong := "Комментарий слишком длинный (максимум 1000 символов)"
  const AddFailed := "Ошибка при добавлении комментария"

  /** The checks before sending: blank after trimming, then more than 1000 characters untrimmed. */
  function TextError(text: string): (r: Option<string>)
    ensures r.None? <==> !IsBlank(text) && |text| <= 1000
    ensures IsBlank(text) ==> r == Some(Empty)
    ensures !IsBlank(text) && |text| > 1000 ==> r == Some(TooLong)
  {
    if IsBlank(text) then Some(Empty)
    else if |text| > 1000 then Some(TooLong)
    else None
  }

  /** `{ text, pageId }`; a page id that is not a number is `None` (`NaN`). */
  datatype CommentRequest = CommentRequest(text: string, pageId: Option<int>)

  /** The request for a text that passed the checks. */
  function Request(text: string, pageId: string): (r: CommentRequest)
    ensures r.text == Trim(text) && r.pageId == ParseInt(pageId)
  {
    CommentRequest(Trim(text), ParseInt(pageId))
  }

  /**
   * A request the box sends passes the server's validator: the trimmed text
   * is 1 to 1000 characters, and a positive page id, once printed, is an
   * integer of at least 1.
   */
  lemma SentCommentIsValid(text: string, pageId: string)
    requires TextError(text).None?
    requires Request(text, pageId).pageId.Some? && Request(text, pageId).pageId.value >= 1
    ensures var r := Request(text, pageId);
      CommentsRoute.CommentValidationErrors(r.text, NatToString(r.pageId.value)) == []
  {
    var r := Request(text, pageId);
    TrimIdempotent(text);
    assert |Trim(text)| <= |text| by {
      TrimIsInfix(text);
    }
    NatToStringIsInt(r.pageId.value);
  }

  class Box {
    var text: string
    var loading: bool
    var error: string
    var requests: seq<CommentRequest>
    /** How many times `onCommentAdded` has been called. */
    var notified: nat

    constructor ()
      ensures text == "" && !loading && error == "" && requests == [] && notified == 0
    {
      text := "";
      loading := false;
      error := "";
      requests := [];
      notified := 0;
    }

    /** The textarea's `onChange`. */
    method Type(value: string)
      modifies this
      ensures text == value && loading == old(loading) && error == old(error)
      ensures requests == old(requests) && notified == old(notified)
    {
      text := value;
    }

    /**
     * `handleSubmit`: a failing check sets its message and sends nothing.
     * Otherwise the request is sent; success clears the text and calls
     * `onCommentAdded` when given; failure keeps the text and sets the
     * server's message or the default. `loading` ends false either way.
     */
    method Submit(pageId: string, answer: Reply<()>, hasCallback: bool)
      modifies this
      ensures TextError(old(text)).Some? ==>
        && error == TextError(old(text)).value
        && text == old(text) && loading == old(loading)
        && requests == old(requests) && notified == old(notified)
      ensures TextError(old(text)).None? ==>
        && requests == old(requests) + [Request(old(text), pageId)]
        && !loading
        && (answer.Ok? ==> text == "" && error == "" && notified == old(notified) + (if hasCallback then 1 else 0))
        && (answer.Err? ==> text == old(text) && error == OrElse(answer.message, AddFailed) && notified == old(notified))
    {
      if IsBlank(text) {
        error := Empty;
        return;
      }
      if |text| > 1000 {
        error := TooLong;
        return;
      }
      loading := true;
      error := "";
      requests := requests + [Request(text, pageId)];
      match answer {
        case Ok(_) =>
          text := "";
          if hasCallback {
            notified := notified + 1;
          }
        case Err(m) =>
          error := OrElse(m, AddFailed);
      }
      loading := false;
    }
  }
}
