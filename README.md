# 80-Pages in Dafny

80-Pages is a small site of illustrated pages with comments, quizzes and an
image upload. An Express server over a relational store (Prisma) serves the
routes `/auth`, `/users`, `/pages`, `/comments`, `/upload` and `/tests`; a
React client holds the session, the forms, the quiz runner, the list and
moderation panels and the route guard.

This project models the decision logic and the state changes of both halves:

- **Store** (`store.dfy`): one map per table, keyed by id, with an
  autoincrement counter each, and the invariant `Database.Valid()` that every
  handler keeps (rows carry their keys, emails are unique, tests have at least
  one question with distinct ids, results have a positive total).
- **Route handlers** (`tests_route.dfy`, `comments_route.dfy`,
  `pages_route.dfy`, `users_route.dfy`, `auth_route.dfy`, `upload_route.dfy`):
  the `express-validator` chains as functions returning their messages, the
  early-return existence checks as methods that change the store, and the
  queries (`findMany` with `where`, `orderBy`, `skip`, `take`, `include`,
  `_count`) as functions over the tables with lemmas stating exactly which
  rows come back and in which order. The replies are `Http.Response` values.
- **Client state** (`auth_context.dfy`, `test_runner.dfy`, `admin_panel.dfy`,
  `moder_panel.dfy`, `add_page.dfy`, `comment_form.dfy`, `language.dfy`): each
  component or provider whose state its handlers update is a class whose
  methods take the API's answer as a parameter and record the requests they
  send.
- **Client validators and pure transitions** (`test_form.dfy`,
  `register_page.dfy`, `category_form.dfy`, `page_list.dfy`,
  `protected_route.dfy`): functions and lemmas.
- **Helpers**: `text.dfy` (JavaScript `trim`, `toLowerCase`, `includes`),
  `numbers.dfy` (`parseInt`, `isInt`, `Math.ceil`, `Math.round`),
  `ordering.dfy` (filtering, descending sorts, windows, table rows),
  `wrappers.dfy` (`Option`, `Reply`), `http.dfy`.

Inputs the code takes from outside are parameters: the requester's id and
role (set by the authentication middleware), the clock, bcrypt's `hash` and
`compare`, `jwt.sign`, the email validator and normalizer, the multer file
description, the file name suffix built from `Date.now()` and `Math.random()`,
`JSON.parse`/`JSON.stringify`, and every API answer the client receives.

## Model

| member | source | states |
|---|---|---|
| Text.TrimIsInfix | backend/src/routes/pages.js:10 | the `trim()` sanitizer leaves the text between a prefix and a suffix of white space, with no white space at either end of what remains |
| Text.BlankIffAllSpace | backend/src/routes/pages.js:10 | `trim().isLength({ min: 1 })` fails exactly when every character is white space |
| Text.TrimIdempotent | backend/src/routes/comments.js:10 | trimming text that is already trimmed changes nothing |
| Text.TrimToLowerCommute | frontend/src/components/Modal/ModalForm.jsx:63 | trimming and lower-casing can be applied in either order, so `trim().toLowerCase()` gives the same text as lower-casing first |
| Text.ContainsIffOccurs | backend/src/routes/pages.js:33-34 | `contains` holds exactly when the search text occurs at some index |
| Numbers.ParseIntOfNatToString | backend/src/routes/pages.js:19-20 | `parseInt` reads back the decimal form of a natural number, whatever non-digit text follows |
| Numbers.ParseIntOfNat | backend/src/routes/pages.js:19-20 | `parseInt` reads the decimal form of a natural number back as that number |
| Numbers.ParseIntOfNonDigit | backend/src/routes/pages.js:19-20 | a string starting with a character that is neither white space, a sign nor a digit is not a number (`NaN`) |
| Numbers.IntStringParses | backend/src/routes/comments.js:11 | a string that `isInt` accepts is read by `parseInt` as the integer it denotes |
| Numbers.CeilDivIsLeastCover | backend/src/routes/pages.js:63 | `Math.ceil(total / limit)` is the least number of `limit`-sized pages that hold `total` items |
| Numbers.JsRound | backend/src/routes/tests.js:85 | `Math.round` gives the integer within half of its argument, halves going up |
| Ordering.SortDescCorrect | backend/src/routes/pages.js:50 | `orderBy: desc` gives a permutation of the rows in non-increasing order of the key |
| Ordering.QueryCorrect | backend/src/routes/comments.js:23-31 | `findMany` with a filter and a descending order lists exactly the matching rows, each once, sorted |
| Ordering.FindFirst | backend/src/routes/tests.js:151-152 | `find` gives nothing exactly when no element has the key, and otherwise an element of the list with that key |
| Ordering.FindFirstAt | backend/src/routes/tests.js:151-152 | `find` stops at the first match: an element whose key no earlier element shares is the one found |
| Ordering.FilterRowsById | backend/src/routes/tests.js:58-63 | each row of a filtered store listing is the stored row under its own id and satisfies the condition, and no id is listed twice |
| Ordering.FilterRowsCorrect | backend/src/routes/pages.js:46-48 | filtering the stored rows gives every row satisfying the condition, each once, and nothing else |
| Ordering.Without | frontend/src/pages/ModerPanel.jsx:76 | `filter(c => c.id !== id)` removes exactly the entries with that id and keeps every other entry as often as before |
| Ordering.WithoutKeepsOrder | frontend/src/pages/AdminPanel.jsx:53 | the entries that survive keep their order: removal works entry by entry, left to right |
| TestsRoute.Collect | backend/src/routes/tests.js:11-14 | a wildcard chain reports nothing exactly when no element reports anything |
| TestsRoute.CountOneIffExactlyOne | backend/src/routes/tests.js:14 | `filter(a => a.isCorrect).length === 1` holds exactly when one answer, and only one, is flagged correct |
| TestsRoute.TestValidationIff | backend/src/routes/tests.js:8-16 | the creation validator accepts exactly a non-blank title with at least one question, each question with non-blank text, at least four answers with non-blank texts, and exactly one correct answer |
| TestsRoute.CleanAnswers | backend/src/routes/tests.js:13 | the `trim()` sanitizer leaves each answer in place with its text trimmed and its flag unchanged |
| TestsRoute.BuildAnswers | backend/src/routes/tests.js:35-38 | the nested answer create stores each answer's text and flag in order under consecutive fresh ids |
| TestsRoute.BuildQuestions | backend/src/routes/tests.js:32-40 | the nested question create stores every question, with its answers and flags, under consecutive fresh ids, all distinct |
| TestsRoute.BuiltStores | backend/src/routes/tests.js:31-41 | the trimmed questions are all stored, one per input question and in its order, with their answers and flags, under distinct ids |
| TestsRoute.CreateTest | backend/src/routes/tests.js:19-53 | an invalid body is a 400 with the validator's messages and stores nothing; a valid one is a 201 holding the trimmed test, stored under the next id, with the store invariant kept |
| Store.Database.InsertTest | backend/src/routes/tests.js:28-46 | `test.create` with nested questions and answers stores the test under the next id, moves the id counters past what it used, and keeps the store invariant |
| TestsRoute.LastResultNoneIff | backend/src/routes/tests.js:68-70 | `lastResult` is null exactly when the requester has no result for the test |
| TestsRoute.LastResultIsLatest | backend/src/routes/tests.js:68-70 | otherwise `lastResult` is one of the requester's results, and none of theirs is more recent |
| TestsRoute.SumOfRatiosBounds | backend/src/routes/tests.js:74-75 | the sum of `score / total` is non-negative, and at most the number of results when no score exceeds its total |
| TestsRoute.AverageFailRateBounds | backend/src/routes/tests.js:72-77 | the fail rate never exceeds 1, and is at least 0 when no score exceeds its total |
| TestsRoute.DifficultyGatedAndClamped | backend/src/routes/tests.js:79-88 | the difficulty is `''` with five results or fewer, and otherwise a level from 1 to 5 |
| TestsRoute.ResultsOf | backend/src/routes/tests.js:58-63 | the results included with a test all belong to that test and have a positive total |
| TestsRoute.ResultsOfCorrect | backend/src/routes/tests.js:58-63 | the results included with a test are exactly its stored results: each listed row is the stored result under its id, every stored result of the test is listed, and no id twice |
| TestsRoute.Listing | backend/src/routes/tests.js:65-95 | one list entry keeps the test's id, title, questions and results, its `lastResult` is the requester's latest of those results, and its difficulty is computed from the question count and those results, gated and clamped |
| TestsRoute.ListTests | backend/src/routes/tests.js:56-102 | GET `/` lists every stored test in order, each with the included results of that test, the requester's latest of them and the difficulty computed from them, gated and clamped |
| TestsRoute.ListTestsCorrect | backend/src/routes/tests.js:56-95 | each entry of GET `/` is a stored test listed with exactly its stored results; `lastResult` is null exactly when the requester has no stored result for it, and otherwise is the requester's stored result for it with the latest `createdAt` |
| TestsRoute.LastResultStored | backend/src/routes/tests.js:68-70 | over a test's complete and sound result list, `lastResult` is null exactly when the store holds no result of the requester for that test, and otherwise is the requester's most recent stored one |
| TestsRoute.PublicOf | backend/src/routes/tests.js:114-119 | the public projection keeps every question and answer, in order, without `isCorrect` |
| TestsRoute.GetTest | backend/src/routes/tests.js:109-130 | GET `/:id`: a non-numeric id is a 500, an unknown id a 404, a known id the test with answers stripped of their flags |
| TestsRoute.PairFound | backend/src/routes/tests.js:151-152 | with distinct ids, a question of the test and one of its answers are both found by their ids |
| TestsRoute.IsCorrectPairIff | backend/src/routes/tests.js:150-153 | with distinct ids, a submitted pair is correct exactly when its question is on the test, its answer belongs to that question and is flagged correct; unknown ids are wrong, not errors |
| TestsRoute.GradedRecords | backend/src/routes/tests.js:150-156 | one record per submitted answer, in submitted order, carrying the submitted ids and their grade |
| TestsRoute.GradeStep | backend/src/routes/tests.js:150-155 | grading one more submitted answer appends its record and adds 1 to the count of correct records exactly when that answer is correct |
| TestsRoute.CountCorrect | backend/src/routes/tests.js:154 | the number of correct records never exceeds the number of records |
| TestsRoute.Grade | backend/src/routes/tests.js:147-156 | the grading loop yields the graded records and a score equal to the number of correct ones, at most the number of answers submitted |
| TestsRoute.ScoreIsNotCappedByTotal | backend/src/routes/tests.js:147-156 | one question answered correctly twice scores 2 out of a total of 1 |
| TestsRoute.SubmitTest | backend/src/routes/tests.js:133-189 | a non-numeric id is a 500 and an unknown test a 404, both storing nothing; otherwise exactly one result is stored under the next id, with the graded records, the score and `total` equal to the number of questions whatever was submitted |
| TestsRoute.UserResults | backend/src/routes/tests.js:192-205 | the response is a 500 exactly when the id is not numeric |
| TestsRoute.UserResultsCorrect | backend/src/routes/tests.js:195-200 | GET `/:id/results` lists exactly the requester's results for that test, each once, newest first |
| CommentsRoute.CommentValidationIff | backend/src/routes/comments.js:9-12 | a comment passes exactly when its trimmed text has 1 to 1000 characters and its page id is an integer literal of value at least 1 |
| CommentsRoute.TrailingGarbageRefused | backend/src/routes/comments.js:11 | `"12abc"` parses to 12 yet the `isInt` check refuses it |
| CommentsRoute.ListPageComments | backend/src/routes/comments.js:15-21 | a page id that `parseInt` rejects is a 400 `Invalid page ID`; any other is a 200 |
| CommentsRoute.ListPageCommentsCorrect | backend/src/routes/comments.js:23-33 | the listing holds every comment of the page, replies included, and nothing else, each once, newest first |
| CommentsRoute.CreateComment | backend/src/routes/comments.js:41-83 | validation failure is a 400 and a missing page a 404, both storing nothing; otherwise one comment is stored under the next id with the trimmed text, the page and the requester as author |
| CommentsRoute.DeleteComment | backend/src/routes/comments.js:86-112 | a non-numeric id is a 400 and an absent one a 404, both changing nothing; otherwise exactly that comment is removed |
| PagesRoute.PageValidationIff | backend/src/routes/pages.js:9-14 | each field's message is reported exactly when that field fails (blank title, trimmed content under 10 characters, category id not an integer of at least 1, blank image path), so the body passes exactly when all four hold |
| PagesRoute.MessagesPerField | backend/src/routes/pages.js:9-14 | the four field messages are distinct, so a message is in the list exactly when its own field fails, and the list is empty exactly when none does |
| PagesRoute.QueryNumberDefaults | backend/src/routes/pages.js:19-20 | reading a query number with `parseInt` and a fallback gives the fallback on a missing, non-numeric or zero value, reads a positive decimal back, and is never 0 when the fallback is not |
| PagesRoute.TakeIsSlice | backend/src/routes/pages.js:50-52 | `skip`/`take` keep one contiguous stretch of at most the absolute value of `take` pages: after the first `skip` for a non-negative take, counted from the end for a negative one |
| PagesRoute.BuildWhere | backend/src/routes/pages.js:25-36 | an empty query value adds no condition; a category id `parseInt` cannot read makes the query fail; otherwise the filter carries the parsed category and the search text |
| PagesRoute.CommentCountCounts | backend/src/routes/pages.js:46-48 | `_count.comments` counts every comment of the page, replies included, each once, and nothing else |
| PagesRoute.Items | backend/src/routes/pages.js:41-49 | each listed page comes with its comment count, in the same order |
| PagesRoute.ListPages | backend/src/routes/pages.js:17-70 | GET `/` is a 500 exactly when the category id cannot be parsed or the skip is negative; otherwise a 200 echoing the defaulted `page` and `limit` |
| PagesRoute.ListPagesBody | backend/src/routes/pages.js:19-63 | the body is the matches, newest first, cut by `skip = (page - 1) * limit` and `take = limit`, with `total` the number of matches and `pages = ceil(total / limit)` |
| PagesRoute.ListPagesShown | backend/src/routes/pages.js:38-53 | every listed page is a stored page matching the filter, listed with its comment count, newest first |
| PagesRoute.ListPagesWindow | backend/src/routes/pages.js:50-52 | at most the absolute value of `limit` pages are listed, and for a positive limit they are exactly the matches that follow the first `skip`, in order |
| PagesRoute.ItemsShown | backend/src/routes/pages.js:38-53 | the stretch of matches shown, with counts: stored, matching, newest first, at most the absolute value of `limit`, and the ones after `skip` for a positive limit |
| PagesRoute.ListPagesTotals | backend/src/routes/pages.js:54-63 | `total` counts every stored page that matches, each once; for a positive limit `pages` is the least number of `limit`-sized pages that hold them |
| PagesRoute.MatchedCorrect | backend/src/routes/pages.js:38-55 | the matches are every stored page satisfying the filter, each once, and nothing else |
| PagesRoute.PageCountCovers | backend/src/routes/pages.js:63 | for a positive limit, `Math.ceil(total / limit)` pages of `limit` items hold all `total` items, and one page fewer does not |
| PagesRoute.ShownCorrect | backend/src/routes/pages.js:39-53 | the stretch shown is stored, matching, sorted newest first, and at most the absolute value of `limit` long |
| PagesRoute.TakeKeeps | backend/src/routes/pages.js:50-52 | `skip`/`take` on a newest-first list keeps the order and the elements' properties, keeps at most the absolute value of `take` elements, and for a non-negative take keeps those right after the first `skip` |
| PagesRoute.ByCommentsSorted | backend/src/routes/pages.js:72-93 | GET `/by-comments` lists at most 100 stored pages with their comment counts, most commented first |
| PagesRoute.ByCommentsTop | backend/src/routes/pages.js:80-85 | a stored page is left out only when 100 are listed, and then every listed page has at least as many comments |
| PagesRoute.ThreadsOf | backend/src/routes/pages.js:110-126 | each top-level comment comes with its replies, in the same order |
| PagesRoute.GetPage | backend/src/routes/pages.js:95-139 | GET `/:id`: a non-numeric id is a 400 and an absent one a 404; otherwise the page with its comment threads |
| PagesRoute.ThreadsCorrect | backend/src/routes/pages.js:110-126 | the threads are exactly the page's top-level comments, each once, newest first |
| PagesRoute.ThreadsOfTops | backend/src/routes/pages.js:110-126 | any duplicate-free, newest-first list of exactly the page's top-level comments gives threads with those same properties |
| PagesRoute.RepliesCorrect | backend/src/routes/pages.js:116-123 | a comment's replies are exactly the comments answering it, each once, oldest first |
| PagesRoute.CreatePage | backend/src/routes/pages.js:144-189 | validation failure is a 400 and an unknown category a 400 `Category not found`, both storing nothing; otherwise one page with the trimmed fields and the requester as author is stored under the next id |
| PagesRoute.UpdatePage | backend/src/routes/pages.js:192-251 | the checks run in order (validation, id, page, category), each failure changing nothing; then the editable fields are replaced, keeping the id, author and creation time |
| PagesRoute.DeletePage | backend/src/routes/pages.js:254-280 | a non-numeric id is a 400 and an absent one a 404, both changing nothing; otherwise exactly that page is removed |
| AuthRoute.RegisterErrorsIff | backend/src/routes/auth.js:11-15 | each registration message is reported exactly when its field fails (trimmed name under 2 characters, email refused, password under 6), so the body passes exactly when all three hold |
| AuthRoute.LoginErrors | backend/src/routes/auth.js:17-20 | the login body passes exactly when the email is accepted and the password is non-empty, and `Password is required` is reported exactly for an empty password |
| AuthRoute.FindByEmailCorrect | backend/src/routes/auth.js:36-38 | `findUnique({ where: { email } })` finds nothing exactly when no stored user has the email, and otherwise the one stored user who has it |
| AuthRoute.Register | backend/src/routes/auth.js:23-81 | validation failure and an already used email are 400s that store nothing; otherwise one enabled `USER` is stored under the next id with the trimmed name, normalised email and hashed password, and the 201 carries the user without the password and a token for its id and role |
| AuthRoute.Login | backend/src/routes/auth.js:84-135 | validation failure is a 400 with the validator's messages; a success is a 200 whose token carries the returned user's id and role |
| AuthRoute.LoginCorrect | backend/src/routes/auth.js:97-130 | an unknown email, then a wrong password (disabled or not), then a disabled account each fail with their own message, in that order; otherwise the session belongs to the stored user with that email |
| AuthRoute.DisabledNeverLogsIn | backend/src/routes/auth.js:111-113 | a disabled account gets no token, whatever password is given |
| UsersRoute.UserItems | backend/src/routes/users.js:12-16 | each listed user comes with its comment count, in the same order |
| UsersRoute.AllUsersCorrect | backend/src/routes/users.js:8-25 | GET `/all` lists every stored user once, newest first, as the full record (password hash included) with its comment count |
| UsersRoute.UserItemsCorrect | backend/src/routes/users.js:10-20 | any newest-first, duplicate-free list of exactly the stored users gives items with those same properties |
| UsersRoute.Toggled | backend/src/routes/users.js:44-58 | the record's `isDeleted` flag is flipped |
| UsersRoute.ToggledOnlyFlag | backend/src/routes/users.js:44-58 | the flip changes no field but the flag, always changes the record, and flipping twice restores it |
| UsersRoute.ToggleAt | backend/src/routes/users.js:44-58 | the toggle keeps the set of stored users |
| UsersRoute.ToggleAtTwice | backend/src/routes/users.js:44-58 | the toggle touches no other user, and toggling twice restores the table |
| UsersRoute.ToggleUser | backend/src/routes/users.js:27-65 | a non-numeric id is a 400 and an absent one a 404, both changing nothing; otherwise the user's flag is flipped, with the same message either way |
| UsersRoute.DeleteUser | backend/src/routes/users.js:68-94 | a non-numeric id is a 400 and an absent one a 404, both changing nothing; otherwise exactly that user is removed |
| UploadRoute.StripTrailingSlashes | backend/src/routes/upload.js:24 | `path.extname` ignores trailing `/` characters: what remains is a prefix of the path that does not end in `/` |
| UploadRoute.LastSegment | backend/src/routes/upload.js:24 | the last segment is the suffix after the last `/`, and holds no `/` |
| UploadRoute.LastDot | backend/src/routes/upload.js:24 | there is no last `.` exactly when the text has none; otherwise it is a `.` that no other `.` follows |
| UploadRoute.ExtNameIsExtension | backend/src/routes/upload.js:24 | `path.extname` returns an extension: empty, or a `.` followed by text with no `.` and no `/` |
| UploadRoute.ExtNameOfBaseAndExtension | backend/src/routes/upload.js:24 | a plain base name followed by an extension has exactly that extension |
| UploadRoute.FileFilter | backend/src/routes/upload.js:30-40 | a file passes exactly when its lower-cased extension and its raw MIME type both mention `jpeg`, `jpg`, `png`, `gif` or `webp`; a refusal carries the filter's message |
| UploadRoute.FilterSeesExtension | backend/src/routes/upload.js:32-35 | for a plain base name, the filter decides on the lower-cased extension and the raw MIME type alone |
| UploadRoute.TypeWordsAreUnanchored | backend/src/routes/upload.js:31-35 | the pattern is unanchored and the name is lower-cased: `.PNG` passes, and so does any text that merely contains `png` |
| UploadRoute.FilterIsCaseSensitiveOnType | backend/src/routes/upload.js:33 | the MIME type is not lower-cased: a type with no lower-case letter, such as `IMAGE/PNG`, is refused whatever the name |
| UploadRoute.NoImageType | backend/src/routes/upload.js:31 | a text with none of the letters j, p, g, w mentions none of the five types |
| UploadRoute.FileNameKeepsExtension | backend/src/routes/upload.js:21-26 | the stored name starts with `image-`, holds no `/`, and keeps the original name's extension |
| UploadRoute.ErrorResponse | backend/src/routes/upload.js:93-105 | the error handler answers 400 with the size message for a `LIMIT_FILE_SIZE` multer error, 400 with the filter's message for a refusal, and 500 `Upload error` for anything else |
| UploadRoute.UploadDir.Upload | backend/src/routes/upload.js:42-71 | a refused type and then an oversized file reach the error handler and store nothing; no file is a 400; otherwise the file is stored under its generated name and its `/uploads/` path is returned |
| UploadRoute.UploadDir.Delete | backend/src/routes/upload.js:74-90 | an existing file is removed with a 200; an absent one is a 404 and nothing changes |
| AuthContext.ReduceActions | frontend/src/contexts/AuthContext.jsx:14-57 | AUTH_START only starts loading and clears the error; AUTH_SUCCESS signs in with the given user and token; AUTH_FAILURE is LOGOUT with the payload as error; CLEAR_ERROR changes only the error; an unknown action changes nothing |
| AuthContext.AuthenticatedIffLastSuccess | frontend/src/contexts/AuthContext.jsx:14-57 | after a run of actions the client is signed in exactly when the last action that decides it (success, failure, logout) was AUTH_SUCCESS, or, with none, when it was signed in before |
| AuthContext.RunKeepsConsistent | frontend/src/contexts/AuthContext.jsx:14-57 | every run of actions keeps "signed in exactly when a token is held, and no user when signed out" |
| AuthContext.AdminIsAuthenticated | frontend/src/contexts/AuthContext.jsx:138-140 | in a consistent state `isAdmin()` implies being signed in |
| AuthContext.AuthProvider.constructor | frontend/src/contexts/AuthContext.jsx:6-12 | the provider starts in the initial state (no user, no token, loading) over the browser's storage |
| AuthContext.AuthProvider.Bootstrap | frontend/src/contexts/AuthContext.jsx:63-82 | a stored token and user that parses sign the client in; a user that does not parse removes both keys and fails with `Invalid token`; anything else fails with no message |
| AuthContext.AuthProvider.SignIn | frontend/src/contexts/AuthContext.jsx:84-126 | AUTH_START, then on success the token and the user are stored before AUTH_SUCCESS; on failure storage is untouched and AUTH_FAILURE carries the server's message or the default |
| AuthContext.AuthProvider.Login | frontend/src/contexts/AuthContext.jsx:84-104 | a success signs in with the returned token; a failure leaves storage alone, leaves the client signed out, and reports the server's message or `Login failed` |
| AuthContext.AuthProvider.Register | frontend/src/contexts/AuthContext.jsx:106-126 | as login, with the default `Registration failed` |
| AuthContext.AuthProvider.SignOut | frontend/src/contexts/AuthContext.jsx:128-132 | both storage keys are removed, then LOGOUT is dispatched |
| AuthContext.AuthProvider.ClearErrorAction | frontend/src/contexts/AuthContext.jsx:134-136 | only the error is cleared |
| TestForm.CorrectCountNone | frontend/src/components/Modal/ModalTestForm.jsx:101 | with no answer flagged the correct-answer count is 0 |
| TestForm.CorrectCountOne | frontend/src/components/Modal/ModalTestForm.jsx:101 | with exactly one answer flagged the count is 1 |
| TestForm.CorrectCountFlags | frontend/src/components/Modal/ModalTestForm.jsx:101 | the count depends only on the answers' flags |
| TestForm.QuestionErrorOrder | frontend/src/components/Modal/ModalTestForm.jsx:98-101 | a question passes exactly when it is complete; each message is returned exactly when every earlier check passes and its own check fails (text, then fewer than four answers, then a blank answer, then not exactly one correct) |
| TestForm.FirstErrorNoneIff | frontend/src/components/Modal/ModalTestForm.jsx:96-104 | the validator finds nothing exactly when every question is complete |
| TestForm.FirstErrorIsFirst | frontend/src/components/Modal/ModalTestForm.jsx:96-104 | a reported message is the error of some question all of whose predecessors pass |
| TestForm.NoQuestionsPass | frontend/src/components/Modal/ModalTestForm.jsx:96-104 | a form with no questions passes the validator |
| TestForm.ValidateForm | frontend/src/components/Modal/ModalTestForm.jsx:96-104 | the loop returns the message of the first failing question, or none |
| TestForm.SubmitOnlyComplete | frontend/src/components/Modal/ModalTestForm.jsx:106-114 | the form is handed to `onSubmit`, unchanged, exactly when every question is complete; otherwise an alert is shown |
| TestForm.MarkOnly | frontend/src/components/Modal/ModalTestForm.jsx:72-75 | every answer keeps its text and only the chosen index is correct |
| TestForm.SelectCorrect | frontend/src/components/Modal/ModalTestForm.jsx:70-77 | only the chosen question changes, and its text is kept |
| TestForm.SelectCorrectOne | frontend/src/components/Modal/ModalTestForm.jsx:70-77 | afterwards the question has exactly one correct answer, the chosen one, and all answer texts are kept |
| TestForm.SelectCorrectIdempotent | frontend/src/components/Modal/ModalTestForm.jsx:70-77 | selecting the same answer twice is selecting it once |
| TestForm.AddQuestion | frontend/src/components/Modal/ModalTestForm.jsx:79-95 | the title and the existing questions are kept and one question is appended |
| TestForm.AddQuestionBlocksSubmit | frontend/src/components/Modal/ModalTestForm.jsx:79-95 | the appended question is blank with four blank, non-correct answers, so submitting raises an alert |
| TestForm.SetTitle | frontend/src/components/Modal/ModalTestForm.jsx:54-56 | only the title changes, to the typed value |
| TestForm.SetQuestionText | frontend/src/components/Modal/ModalTestForm.jsx:58-62 | only the chosen question's text changes, to the typed value |
| TestForm.SetAnswerText | frontend/src/components/Modal/ModalTestForm.jsx:64-68 | only the chosen answer's text changes; its flag and everything else are kept |
| TestForm.TextEditsKeepCorrectCount | frontend/src/components/Modal/ModalTestForm.jsx:58-68 | text edits never change the number of correct answers |
| TestForm.FromInitial | frontend/src/components/Modal/ModalTestForm.jsx:31-32 | a null `initialData` leaves the form as it was |
| TestForm.FromInitialShape | frontend/src/components/Modal/ModalTestForm.jsx:31-51 | the mapped form keeps questions and answers in order, coerces `isCorrect` by truthiness, turns missing texts into "" and gives a question without answers four blank ones |
| TestRunner.Picks | frontend/src/components/TestRunner.jsx:33-48 | the answer list holds one `{questionId, answerId}` per answered question, in question order |
| TestRunner.PicksSnoc | frontend/src/components/TestRunner.jsx:40-43 | answering one more question extends the list by that question's pick |
| TestRunner.CompletePicks | frontend/src/components/TestRunner.jsx:44-47 | a complete list has one entry per question, carrying the question ids in order and the chosen answers |
| TestRunner.Runner.constructor | frontend/src/components/TestRunner.jsx:12-17 | no test, index 0, no selection, no answers, not submitted, no result, nothing posted |
| TestRunner.Runner.Load | frontend/src/components/TestRunner.jsx:19-27 | the fetched questions become the test and nothing else changes |
| TestRunner.Runner.Select | frontend/src/components/TestRunner.jsx:29-31 | only the selection changes |
| TestRunner.Runner.SubmitAnswer | frontend/src/components/TestRunner.jsx:33-49 | with nothing selected, no test or a result shown nothing changes; before the last question the pick is appended, the selection cleared and the index advanced; on the last the answers so far plus this pick are posted and nothing else changes, so every posted list covers every question in order |
| TestRunner.Runner.Receive | frontend/src/components/TestRunner.jsx:52-56 | the reply becomes the result and the runner is marked submitted |
| RegisterPage.JoinedAddressLooksLikeEmail | frontend/src/pages/RegisterPage.jsx:59 | space-free, non-empty `local`, `domain` and `tld` joined as `local@domain.tld` match `/\S+@\S+\.\S+/` |
| RegisterPage.PatternIsUnanchored | frontend/src/pages/RegisterPage.jsx:59 | the pattern is not anchored: any text around a matching string, white space included, still matches |
| RegisterPage.NoAtNoMatch | frontend/src/pages/RegisterPage.jsx:59 | a string without `@` does not match |
| RegisterPage.CheckField | frontend/src/pages/RegisterPage.jsx:51-73 | one field's block of checks sets that field's key to its first failing message, or leaves the object as it was |
| RegisterPage.ValidateForm | frontend/src/pages/RegisterPage.jsx:48-77 | each field's entry is its first failing message (name trimmed: required, at least 2; email trimmed required, then the pattern on the raw value; password: required, at least 6; confirmation: required, equal), and the form is valid exactly when no key was set |
| RegisterPage.NoErrorsIffAcceptable | frontend/src/pages/RegisterPage.jsx:48-77 | no field has an error exactly when the form is acceptable, the name measured trimmed and the password raw |
| RegisterPage.Change | frontend/src/pages/RegisterPage.jsx:33-46 | the edited field takes the value and no other field changes; its error, when set and non-empty, becomes ""; other errors are kept |
| RegisterPage.Submit | frontend/src/pages/RegisterPage.jsx:79-92 | an invalid form sends nothing; a valid one sends the trimmed name, the trimmed email and the raw password |
| RegisterPage.SubmittedPassesServerChecks | frontend/src/pages/RegisterPage.jsx:79-92 | what the form sends passes the server's name and password validators, so only the server's email check can still reject it |
| AddPage.ImageError | frontend/src/pages/AddPage.jsx:53-61 | a file is accepted exactly when its type starts with `image/` and its size is at most 5 MiB; a wrong type is reported before the size |
| AddPage.NoErrorsIffAcceptable | frontend/src/pages/AddPage.jsx:78-103 | no field has an error exactly when the trimmed title has at least 3 characters, the trimmed content at least 10, a category is chosen and an image is selected |
| AddPage.Payload | frontend/src/pages/AddPage.jsx:122-127 | the page is created with the trimmed title and content, the category parsed as an integer and the path the upload returned |
| AddPage.PayloadCategory | frontend/src/pages/AddPage.jsx:125 | a category id chosen from the list reaches the server as that integer |
| AddPage.PayloadTrimmed | frontend/src/pages/AddPage.jsx:81-91 | an accepted form sends a title of at least 3 and content of at least 10 characters, neither with surrounding white space |
| AddPage.Editor.constructor | frontend/src/pages/AddPage.jsx:11-21 | empty fields, no image, no preview, no errors, not loading, nothing sent |
| AddPage.Editor.Change | frontend/src/pages/AddPage.jsx:36-48 | the edited field takes the value; its error, when set and non-empty, becomes ""; nothing else changes |
| AddPage.Editor.PickImage | frontend/src/pages/AddPage.jsx:50-71 | no file changes nothing; a rejected file sets the picker's message and keeps the selection; an accepted file is selected with its preview and leaves the error as it was |
| AddPage.Editor.RemoveImage | frontend/src/pages/AddPage.jsx:73-76 | the image and its preview are cleared and nothing else changes |
| AddPage.Editor.Validate | frontend/src/pages/AddPage.jsx:78-103 | the recorded errors are exactly the failing fields' messages, and the result says whether the form is acceptable |
| AddPage.Editor.Submit | frontend/src/pages/AddPage.jsx:105-139 | an invalid form sends nothing; otherwise the image is uploaded first and the page is created only when that succeeds; a failure shows the server's message or the default, success opens the list with its message, and loading ends either way |
| AddPage.Editor.Send | frontend/src/pages/AddPage.jsx:112-138 | once the form is valid: the image upload is sent first, and the page creation with the returned path only when the upload succeeds; a failure shows the server's message or the default, success opens the list, and loading ends either way |
| CommentForm.TextError | frontend/src/components/CommentForm.jsx:15-23 | a text is sent exactly when it is not blank and has at most 1000 characters untrimmed; blankness is reported first |
| CommentForm.Request | frontend/src/components/CommentForm.jsx:29-32 | the request carries the trimmed text and the page id parsed as an integer |
| CommentForm.SentCommentIsValid | frontend/src/components/CommentForm.jsx:15-32 | a text that passed the checks, sent for a positive page id, passes the server's comment validator |
| CommentForm.Box.constructor | frontend/src/components/CommentForm.jsx:8-10 | empty text, not loading, no error, nothing sent |
| CommentForm.Box.Type | frontend/src/components/CommentForm.jsx:71 | only the text changes |
| CommentForm.Box.Submit | frontend/src/components/CommentForm.jsx:12-43 | a failing check sets its message and sends nothing; otherwise the request is sent; success clears the text and calls `onCommentAdded` when given; failure keeps the text and shows the server's message or the default; loading ends either way |
| CategoryForm.NormalizeIdempotent | frontend/src/components/Modal/ModalForm.jsx:63 | normalizing twice is normalizing once |
| CategoryForm.FindFrom | frontend/src/components/Modal/ModalForm.jsx:67-70 | the search stops at the first entry from the start index that passes the test, and finds nothing only when no entry from there passes it |
| CategoryForm.CategoryKey | frontend/src/components/Modal/ModalForm.jsx:65-72 | the key of the first entry, in key order, that the normalized name labels, or `city` when none does |
| CategoryForm.CategoryKeyOfNormalized | frontend/src/components/Modal/ModalForm.jsx:63-72 | the lookup ignores case and surrounding white space |
| CategoryForm.UnknownIsCity | frontend/src/components/Modal/ModalForm.jsx:71 | a name no entry labels is shown as the city category |
| CategoryForm.OptionLabel | frontend/src/components/Modal/ModalForm.jsx:125-126 | the option shows the Russian label of the name's key when the language is `ru`, the English one otherwise |
| CategoryForm.IndexOf | frontend/src/components/Modal/ModalForm.jsx:54-61 | every key of the map has an entry |
| CategoryForm.IdString | frontend/src/components/Modal/ModalForm.jsx:49 | a missing or zero id becomes ""; a positive id parses back to itself |
| CategoryForm.FromInitial | frontend/src/components/Modal/ModalForm.jsx:42-52 | a null `initialData` leaves the form; otherwise missing texts become "", the file is cleared, `category` is dropped, and the category id is the string of the page's category id |
| CategoryForm.Change | frontend/src/components/Modal/ModalForm.jsx:74-77 | only the named field changes, to the value |
| CategoryForm.PickFile | frontend/src/components/Modal/ModalForm.jsx:79-81 | only the file changes |
| Language.KeysOf | frontend/src/contexts/LanguageContext.jsx:13-156 | the keys of a table, row by row in order |
| Language.KeysOfAppend | frontend/src/contexts/LanguageContext.jsx:13-156 | the keys of two sections in a row are the keys of the first followed by those of the second |
| Language.SameKeys | frontend/src/contexts/LanguageContext.jsx:14-155 | the Russian and English tables list the same keys in the same order, so each key has a text in both languages |
| Language.Entry | frontend/src/contexts/LanguageContext.jsx:169 | a table has an entry for a key exactly when some row carries it, and the entry is the text of the last such row |
| Language.T | frontend/src/contexts/LanguageContext.jsx:168-170 | a language other than `ru` and `en` makes `t` throw; otherwise `t` gives the key's non-empty text, or the key itself |
| Language.UnknownKeyIsItself | frontend/src/contexts/LanguageContext.jsx:169 | a key neither table has comes back unchanged in both languages |
| Language.DeleteErrorUntranslated | frontend/src/contexts/LanguageContext.jsx:14-155 | `deleteError` is in neither table, so `t('deleteError')` shows the key |
| Language.InitialLanguage | frontend/src/contexts/LanguageContext.jsx:159-162 | the saved language when one is saved and non-empty, `ru` otherwise |
| Language.LanguageProvider.constructor | frontend/src/contexts/LanguageContext.jsx:159-166 | the language is read from storage and the effect writes it back |
| Language.LanguageProvider.ChangeLanguage | frontend/src/contexts/LanguageContext.jsx:164-174 | the language becomes the chosen one and is stored under `language` |
| AdminPanel.Contribution | frontend/src/pages/AdminPanel.jsx:28-33 | a page without a comments field, or with an empty one, contributes nothing; otherwise it contributes each of its comments in order, tagged with its title |
| AdminPanel.FlattenAppend | frontend/src/pages/AdminPanel.jsx:27-34 | the comments of two runs of pages are those of the first followed by those of the second |
| AdminPanel.FlattenMembers | frontend/src/pages/AdminPanel.jsx:27-34 | a tagged comment is listed exactly when some page has that comment and that title |
| AdminPanel.WithoutCommentsContributeNothing | frontend/src/pages/AdminPanel.jsx:28 | pages none of which carries comments give an empty list |
| AdminPanel.CollectComments | frontend/src/pages/AdminPanel.jsx:25-34 | the loop builds exactly the flattened, tagged comments of the pages, in page order |
| AdminPanel.CommentsTabEmptyAsServed | frontend/src/pages/AdminPanel.jsx:24-36 | fed by the list route as written, which sends comment counts and no comments, the comments tab is always empty |
| AdminPanel.WithCommentsHolds | backend/src/routes/pages.js:38-55 | a listed page given its comments carries exactly the stored comments of that page |
| AdminPanel.CommentsTabListsAllComments | frontend/src/pages/AdminPanel.jsx:24-36 | once each listed page carries its comments, the tab lists every stored comment of every listed page, tagged with that page's title, and nothing else |
| AdminPanel.Panel.constructor | frontend/src/pages/AdminPanel.jsx:6-10 | the pages tab, empty lists, loading, no error, nothing sent |
| AdminPanel.Panel.FetchData | frontend/src/pages/AdminPanel.jsx:16-44 | both tabs ask for 100 pages; the pages tab keeps them, the comments tab keeps their flattened comments; a failure sets the load error and keeps both lists; loading ends either way |
| AdminPanel.Panel.DeletePage | frontend/src/pages/AdminPanel.jsx:46-57 | a declined confirmation does nothing; otherwise the deletion is sent; on success exactly the pages with that id leave the list and the others keep their order; on failure the list is kept and the error set |
| AdminPanel.Panel.DeleteComment | frontend/src/pages/AdminPanel.jsx:59-70 | as for pages, on the comment list |
| AdminPanel.Panel.SelectTab | frontend/src/pages/AdminPanel.jsx:104-114 | only the active tab changes |
| ModerPanel.InitialFilters | frontend/src/pages/ModerPanel.jsx:15-20 | the page filter is the address's `pageId`, or "" without one, on the first result page |
| ModerPanel.RequestParams | frontend/src/pages/ModerPanel.jsx:40-43 | the comment query carries `pageId` exactly when the filter names a page, and then carries that value |
| ModerPanel.SelectPage | frontend/src/pages/ModerPanel.jsx:65-71 | the selected page becomes the filter, back on the first result page |
| ModerPanel.Shown | frontend/src/pages/ModerPanel.jsx:45-49 | the list is the answer's `comments` array, and empty when the call fails or the body holds no array there |
| ModerPanel.Panel.constructor | frontend/src/pages/ModerPanel.jsx:10-22 | empty lists, loading, no error, the filters of the address, no dialog, nothing sent |
| ModerPanel.Panel.FetchPages | frontend/src/pages/ModerPanel.jsx:24-34 | the pages by comment count are requested and kept, or none when the call fails; loading ends; nothing else changes |
| ModerPanel.Panel.FetchComments | frontend/src/pages/ModerPanel.jsx:36-53 | the comments are requested with the page filter when one is set, and the list becomes what the answer shows; fetching ends; nothing else changes |
| ModerPanel.Panel.SelectPageChange | frontend/src/pages/ModerPanel.jsx:65-71 | only the filters change, to the selected page on result page 1 |
| ModerPanel.Panel.OpenConfirm | frontend/src/pages/ModerPanel.jsx:84-87 | the dialog opens on the chosen comment and nothing else changes |
| ModerPanel.Panel.DeleteComment | frontend/src/pages/ModerPanel.jsx:73-82 | on success exactly the comments with that id leave the list, the others keep their order, and the page counts are fetched again; on failure the lists are kept and the error is `t('deleteError')`; when `t` throws the error is left unchanged and the call reports that it rejected |
| ModerPanel.Panel.ConfirmDelete | frontend/src/pages/ModerPanel.jsx:89-93 | without a chosen comment nothing changes; otherwise the chosen comment's deletion is sent, the list loses it when that succeeds, and the dialog closes unless the deletion rejected (`t` throwing in its `catch`), in which case the rethrow leaves it open |
| ModerPanel.DeleteFailureShowsKey | frontend/src/pages/ModerPanel.jsx:80 | in either language a failed deletion shows the untranslated key `deleteError` |
| PageList.SearchChange | frontend/src/pages/PageList.jsx:42-48 | the new search text, back on page 1, the category kept |
| PageList.CategoryChange | frontend/src/pages/PageList.jsx:50-56 | the new category, back on page 1, the search text kept |
| PageList.PageChange | frontend/src/pages/PageList.jsx:58-62 | only the page number changes |
| PageList.SearchAndCategoryCommute | frontend/src/pages/PageList.jsx:42-56 | a text edit and a category pick give the same filters in either order |
| PageList.Pagination | frontend/src/pages/PageList.jsx:154-192 | the bar is shown exactly when the list is not empty and there is more than one page; it has buttons 1 to min(5, pages), the current one active; Back is disabled exactly on page 1 and Next exactly on the last page |
| PageList.OneActiveButton | frontend/src/pages/PageList.jsx:173-188 | at most one button is active, and one is exactly when the current page is among those shown |
| PageList.Clicked | frontend/src/pages/PageList.jsx:166-191 | a click keeps the search text and the category |
| PageList.ClicksStayInRange | frontend/src/pages/PageList.jsx:163-192 | from a page in range, a control the bar lets through lands on a page in range |
| ProtectedRoute.ModerCondition | frontend/src/components/ProtectedRoute.jsx:43 | the second condition as JavaScript parses it: false off a moderators' route; a `TypeError` when the context has no `isModer`; otherwise "not a moderator, or adminOnly", and not an administrator |
| ProtectedRoute.LoadingShowsSpinner | frontend/src/components/ProtectedRoute.jsx:8-14 | while loading the spinner shows, whatever the other inputs |
| ProtectedRoute.SignedOutGoesToLogin | frontend/src/components/ProtectedRoute.jsx:16-18 | loaded and signed out redirects to `/login`, whatever the flags |
| ProtectedRoute.NonAdminDenied | frontend/src/components/ProtectedRoute.jsx:20-40 | a signed-in non-administrator is refused an administrators' route |
| ProtectedRoute.AdminPartDeadWhenReached | frontend/src/components/ProtectedRoute.jsx:20-43 | when the second check is reached its `adminOnly && !isAdmin()` part is already false, so the condition is `!isModer() && !isAdmin()` |
| ProtectedRoute.ChildrenIff | frontend/src/components/ProtectedRoute.jsx:8-66 | the children render exactly when loaded, signed in, an administrator where demanded, and on a moderators' route a moderator or an administrator |
| ProtectedRoute.FromState | frontend/src/contexts/AuthContext.jsx:138-149 | the provider's context carries its flags and `isAdmin()`, and no `isModer` |
| ProtectedRoute.ModerRouteUnderProvider | frontend/src/components/ProtectedRoute.jsx:43 | under the provider a moderators' route throws for everyone who gets past the administrator check and renders its children for nobody |
| ProtectedRoute.AdminRouteUnderProvider | frontend/src/components/ProtectedRoute.jsx:20 | under the provider whoever an administrators' route lets through is a signed-in administrator holding a token |

## Left out

- Rendering: the JSX markup, styling, icons, date formatting and the components that only display data (home page, page cards and detail, comment list and cards, login page, quiz list, modal shells) are not modelled.
- The HTTP client and its interceptors (`frontend/src/services/api.js`) are I/O; every API answer is a parameter of the method that awaits it.
- Wiring: `backend/src/server.js`, `frontend/src/App.jsx` and the build configuration are not modelled. The tests router is modelled on its own although `server.js` does not mount it.
- The categories route only passes store rows through and is not modelled; the category lists the client fetches (`AddPage`, `ModalForm`) only fill a drop-down and are not modelled either.
- The authentication middleware is not part of this model: the requester's id and role are inputs of the handlers.
- bcrypt, JWT signing, `isEmail`/`normalizeEmail`, `JSON.parse`/`JSON.stringify` and the upload name suffix are uninterpreted function parameters; the model does not state what they compute.
- Concurrency: each handler is one atomic step, so the windows between a check and the write that follows it, and the two queries `Promise.all` runs side by side in GET `/pages` and in the page list, are not modelled.
- TestsRoute.AverageFailRateBounds: the ratios and the mean are Dafny reals, not IEEE doubles; `Math.round` is `(x + 0.5).Floor`. The bounds, the gating and the clamping do not depend on rounding, exact values can.
- PagesRoute.MentionsText: Prisma's case-insensitive `contains` is modelled as `includes` on `toLowerCase` of both sides, lower-casing only Latin A-Z and Cyrillic U+0400-U+042F; the database collation is not modelled.
- Ordering.SortDesc: rows with equal keys (`createdAt`, comment counts) come out in one fixed order; the store's order among ties is not modelled, and the lemmas state sortedness and permutation only.
- Text.Trim: strings are sequences of Unicode characters; `length` limits count characters, not UTF-16 code units, so a character outside the Basic Multilingual Plane counts once where JavaScript counts two.
- Cascading deletes: deleting a page or a user removes only that row; what the store's foreign keys do to comments, results and pages of that row is not modelled.
- UploadRoute.UploadDir.Delete: the uploads folder is a set of file names; the file name is not resolved against the folder, so a name with `..` or `/` is not modelled, and neither is the folder's creation at start-up.
- UploadRoute.UploadDir.Upload: the upload fails only through the filter and the size limit; failures of the disk storage itself (a folder or a file that cannot be written) are not produced, though `ErrorResponse` maps any error.
- TestForm.Truthy: JavaScript truthiness of `isCorrect` leaves out `NaN`.
- Language.Entry: a key that names a property every JavaScript object inherits (`constructor`, `toString`) is treated as absent.
- CategoryForm.OptionLabel: the model proves the lookup's structure and its fallback; it does not tabulate which label of the six categories maps to which key.
- AddPage.Editor.PickImage: the `FileReader` preview arrives later in the browser; the model sets it in the same step.
- The client components are modelled on values: the shallow array copy followed by the in-place text edit in the quiz editor (`handleQuestionChange`, `handleAnswerChange`) is modelled as a functional update, so the sharing between the old and the new question objects is not.
- The effects that run after a filter or tab change (`fetchComments` on a new page filter in the moderation panel, `fetchData` on a new tab in the administration panel) are separate methods, called by whoever drives the model.
- The page list's `fetchData` is not modelled (it sets the list and the pagination object from the answer); its pagination bar and filter transitions are.
- Numbers: ids, counters and the results of `parseInt` are exact unbounded integers. JavaScript numbers lose precision above 2^53. Prisma `Int` columns are 32-bit, so a looked-up id of 2^31 or more is a 500 in the store that the model answers normally.
- Request bodies are assumed to have the modelled shape: each handler takes typed fields. A field of the wrong type, or one left out where the code reads it without a validator, is not modelled. For example, a submission without `answers` is a 500 at backend/src/routes/tests.js:150.
- TestRunner.Runner.Load: covers one load per mounted runner. The effect runs again on a new `id` without resetting the current question, the answers or the finished flag, and that second load is not modelled.

## Findings

| source | as written | input that shows it | evidently intended | confidence | as-written member | corrected member |
|---|---|---|---|---|---|---|
| frontend/src/pages/AdminPanel.jsx:24-36 | the comments tab reads `page.comments` from GET `/pages`, whose handler (backend/src/routes/pages.js:38-55) includes only `_count.comments`, so every page contributes nothing | any stored page with one comment: the tab lists no comments | the tab lists every comment of every listed page, tagged with that page's title | high, not executed | AdminPanel.CommentsTabEmptyAsServed | AdminPanel.CommentsTabListsAllComments |

## Notes on the code

- Comment moderation described for the site (flagging banned words, an approve action, creating replies through `parentId`, a `/comments/all` listing) is not in the backend routes; the client calls for it have no handler behind them, so only what the code does is modelled. Replies exist in the store only as rows with a `parentId`, and the page detail route groups them.
- `AuthContext` hands out no `isModer`, while the guard's second check calls it: a route with `moderOnly` throws a `TypeError` once reached (`ProtectedRoute.ModerRouteUnderProvider`). No route of the client sets `moderOnly`, so this stays latent.
- Because `|` binds tighter than `&&`, the guard's second check reads `moderOnly && (!isModer() | adminOnly) && !isAdmin()`: it lets administrators through a moderators' route (`ProtectedRoute.ChildrenIff`).
- The translation tables have no `deleteError`, so a failed deletion in the moderation panel shows the key itself, and `t` throws for any language other than `ru` and `en` (`Language.DeleteErrorUntranslated`, `Language.T`).
- The quiz editor's validator accepts a form with no questions (`TestForm.NoQuestionsPass`); the server's validator then refuses it. After the final answer is posted the quiz runner changes nothing until the reply arrives, so a second click posts the same answers again (`TestRunner.Runner.SubmitAnswer`).
- Grading counts duplicate submissions, so a score can exceed the total (`TestsRoute.ScoreIsNotCappedByTotal`).
- The page editor keeps an earlier picker error after an accepted image (`AddPage.Editor.PickImage`); the category lookup labels any unknown name as the city category (`CategoryForm.UnknownIsCity`).
- The administration panel never clears its error after a successful retry, and it only ever asks for the first 100 pages.
