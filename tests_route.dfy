/**
 * The quiz routes (backend/src/routes/tests.js): the creation validator and
 * nested create, the list with per-test metadata (last own result, fail
 * rate, difficulty), the public projection of one test, grading of a
 * submission, and a user's own results.
 */
module TestsRoute {
  import opened Wrappers
  import opened Text
  import opened Numbers
  import opened Ordering
  import opened Http
  import opened Store

  // ---------------------------------------------------------------------------
  // Creation: the validation chain and the nested create
  // ---------------------------------------------------------------------------

  datatype AnswerInput = AnswerInput(text: string, isCorrect: bool)

  datatype QuestionInput = QuestionInput(text: string, answers: seq<AnswerInput>)

  const TitleRequired := "Title is required"
  const QuestionRequired := "At least one question required"
  const QuestionTextRequired := "Question text required"
  const FourAnswersRequired := "Each question must have 4 answers"
  const AnswerTextRequired := "Answer text required"
  const OneCorrectRequired := "Each question must have exactly 1 correct answer"

  /** The messages of one wildcard chain: `f` of each element, in order. */
  function Collect<T>(s: seq<T>, f: T -> seq<string>): (r: seq<string>)
    ensures r == [] <==> forall i :: 0 <= i < |s| ==> f(s[i]) == []
  {
    if s == [] then [] else f(s[0]) + Collect(s[1..], f)
  }

  /** `arr.filter(a => a.isCorrect).length`. */
  function CorrectCount(answers: seq<AnswerInput>): nat {
    |Filter(answers, (a: AnswerInput) => a.isCorrect)|
  }

  function AnswerTextErrors(q: QuestionInput): seq<string> {
    Collect(q.answers, (a: AnswerInput) => if IsBlank(a.text) then [AnswerTextRequired] else [])
  }

  /** The errors of the creation validator, chain by chain and element by element. */
  function TestValidationErrors(title: string, questions: seq<QuestionInput>): seq<string> {
    (if IsBlank(title) then [TitleRequired] else [])
    + (if |questions| < 1 then [QuestionRequired] else [])
    + Collect(questions, (q: QuestionInput) => if IsBlank(q.text) then [QuestionTextRequired] else [])
    + Collect(questions, (q: QuestionInput) => if |q.answers| < 4 then [FourAnswersRequired] else [])
    + Collect(questions, AnswerTextErrors)
    + Collect(questions, (q: QuestionInput) => if CorrectCount(q.answers) != 1 then [OneCorrectRequired] else [])
  }

  /** Exactly one answer is flagged correct. */
  ghost predicate ExactlyOneCorrect(answers: seq<AnswerInput>) {
    exists i :: 0 <= i < |answers| && answers[i].isCorrect
      && forall j :: 0 <= j < |answers| && answers[j].isCorrect ==> j == i
  }

  /** What a well-formed question is, stated independently of the validator. */
  ghost predicate WellFormedQuestion(q: QuestionInput) {
    && !IsBlank(q.text)
    && |q.answers| >= 4
    && (forall j :: 0 <= j < |q.answers| ==> !IsBlank(q.answers[j].text))
    && ExactlyOneCorrect(q.answers)
  }

  lemma {:induction false} CountOneIffExactlyOne(answers: seq<AnswerInput>)
    ensures CorrectCount(answers) == 1 <==> ExactlyOneCorrect(answers)
  {
    if answers == [] {
      assert Filter(answers, (a: AnswerInput) => a.isCorrect) == [];
    } else {
      CorrectCountCons(answers);
      if answers[0].isCorrect {
        NoneCorrect(answers[1..]);
        ExactlyOneWithHeadCorrect(answers);
      } else {
        CountOneIffExactlyOne(answers[1..]);
        ExactlyOneWithHeadWrong(answers);
      }
    }
  }

  lemma CorrectCountCons(answers: seq<AnswerInput>)
    requires answers != []
    ensures CorrectCount(answers) == (if answers[0].isCorrect then 1 else 0) + CorrectCount(answers[1..])
  {
  }

  lemma NoneCorrect(answers: seq<AnswerInput>)
    ensures CorrectCount(answers) == 0 <==> forall j :: 0 <= j < |answers| ==> !answers[j].isCorrect
  {
    FilterEmpty(answers, (a: AnswerInput) => a.isCorrect);
  }

  lemma ExactlyOneWithHeadCorrect(answers: seq<AnswerInput>)
    requires answers != [] && answers[0].isCorrect
    ensures ExactlyOneCorrect(answers) <==> forall j :: 1 <= j < |answers| ==> !answers[j].isCorrect
  {
    if ExactlyOneCorrect(answers) {
      var i :| 0 <= i < |answers| && answers[i].isCorrect
        && forall j :: 0 <= j < |answers| && answers[j].isCorrect ==> j == i;
      assert i == 0;
    }
  }

  lemma ExactlyOneWithHeadWrong(answers: seq<AnswerInput>)
    requires answers != [] && !answers[0].isCorrect
    ensures ExactlyOneCorrect(answers) <==> ExactlyOneCorrect(answers[1..])
  {
    var rest := answers[1..];
    if ExactlyOneCorrect(answers) {
      var i :| 0 <= i < |answers| && answers[i].isCorrect
        && forall j :: 0 <= j < |answers| && answers[j].isCorrect ==> j == i;
      assert rest[i - 1].isCorrect;
      forall j | 0 <= j < |rest| && rest[j].isCorrect ensures j == i - 1 {
        assert answers[j + 1].isCorrect;
      }
    }
    if ExactlyOneCorrect(rest) {
      var i :| 0 <= i < |rest| && rest[i].isCorrect
        && forall j :: 0 <= j < |rest| && rest[j].isCorrect ==> j == i;
      assert answers[i + 1].isCorrect;
      forall j | 0 <= j < |answers| && answers[j].isCorrect ensures j == i + 1 {
        assert j > 0 && rest[j - 1].isCorrect;
      }
    }
  }

  /**
   * The validator accepts exactly the tests with a non-blank title and at
   * least one question, every question well formed.
   */
  lemma TestValidationIff(title: string, questions: seq<QuestionInput>)
    ensures TestValidationErrors(title, questions) == [] <==>
      && !IsBlank(title)
      && |questions| >= 1
      && forall i :: 0 <= i < |questions| ==> WellFormedQuestion(questions[i])
  {
    forall i | 0 <= i < |questions|
      ensures (CorrectCount(questions[i].answers) == 1) == ExactlyOneCorrect(questions[i].answers)
      ensures AnswerTextErrors(questions[i]) == [] <==>
                forall j :: 0 <= j < |questions[i].answers| ==> !IsBlank(questions[i].answers[j].text)
    {
      CountOneIffExactlyOne(questions[i].answers);
    }
  }

  /** The request body after the `trim()` sanitizers of the chain: every answer text trimmed. */
  function CleanAnswers(answers: seq<AnswerInput>): (r: seq<AnswerInput>)
    ensures |r| == |answers|
    ensures forall j :: 0 <= j < |r| ==> r[j] == AnswerInput(Trim(answers[j].text), answers[j].isCorrect)
  {
    seq(|answers|, j requires 0 <= j < |answers| => AnswerInput(Trim(answers[j].text), answers[j].isCorrect))
  }

  /** A question after the sanitizers: its text and its answer texts trimmed. */
  function Clean(q: QuestionInput): QuestionInput {
    QuestionInput(Trim(q.text), CleanAnswers(q.answers))
  }

  /** The stored answers: texts and flags as given, ids handed out from `next`. */
  function BuildAnswers(answers: seq<AnswerInput>, next: int): (r: seq<Answer>)
    ensures |r| == |answers|
    ensures forall j :: 0 <= j < |r| ==>
      r[j] == Answer(next + j, answers[j].text, answers[j].isCorrect)
  {
    if answers == [] then []
    else
      var first := Answer(next, answers[0].text, answers[0].isCorrect);
      var rest := BuildAnswers(answers[1..], next + 1);
      assert forall j :: 1 <= j < |answers| ==> ([first] + rest)[j] == rest[j - 1];
      [first] + rest
  }

  /** The stored question holds the submitted one: its text, its answers in order with their flags. */
  ghost predicate Stores(q: Question, input: QuestionInput) {
    && q.text == input.text
    && |q.answers| == |input.answers|
    && forall j :: 0 <= j < |q.answers| ==>
         q.answers[j].text == input.answers[j].text && q.answers[j].isCorrect == input.answers[j].isCorrect
  }

  /**
   * The nested `questions.create`: question ids from `nextQ`, answer ids from
   * `nextA`, both consecutive; also returns the next free answer id.
   */
  function BuildQuestions(qs: seq<QuestionInput>, nextQ: int, nextA: int): (r: (seq<Question>, int))
    ensures |r.0| == |qs| && r.1 >= nextA
    ensures forall i :: 0 <= i < |qs| ==> r.0[i].id == nextQ + i && Stores(r.0[i], qs[i])
    ensures DistinctIds(r.0)
  {
    if qs == [] then ([], nextA)
    else
      var first := Question(nextQ, qs[0].text, BuildAnswers(qs[0].answers, nextA));
      var rest := BuildQuestions(qs[1..], nextQ + 1, nextA + |qs[0].answers|);
      ConsQuestions(first, rest.0, nextQ, qs);
      ([first] + rest.0, rest.1)
  }

  /**
   * Putting a question with distinct answer ids in front of consecutively
   * numbered ones keeps ids distinct and each question holding its input.
   */
  lemma ConsQuestions(first: Question, rest: seq<Question>, nextQ: int, inputs: seq<QuestionInput>)
    requires |inputs| == |rest| + 1 && Stores(first, inputs[0])
    requires forall i :: 0 <= i < |rest| ==> rest[i].id == nextQ + 1 + i && Stores(rest[i], inputs[1..][i])
    requires first.id == nextQ && DistinctIds(rest)
    requires forall a, b :: 0 <= a < b < |first.answers| ==> first.answers[a].id != first.answers[b].id
    ensures DistinctIds([first] + rest)
    ensures forall i :: 0 <= i < |inputs| ==> ([first] + rest)[i].id == nextQ + i && Stores(([first] + rest)[i], inputs[i])
  {
    var qs := [first] + rest;
    forall i | 1 <= i < |qs| ensures qs[i] == rest[i - 1] && inputs[i] == inputs[1..][i - 1] {
    }
  }

  /** Whether the submitted test is stored and what status it gets (tests.js:19-53). */
  method CreateTest(db: Database, title: string, questions: seq<QuestionInput>) returns (r: Response<Test>)
    requires db.Valid()
    modifies db`tests, db`nextTestId, db`nextQuestionId, db`nextAnswerId
    ensures db.Valid()
    ensures TestValidationErrors(title, questions) != [] ==>
      && r == Invalid(TestValidationErrors(title, questions)) && db.tests == old(db.tests)
      && db.nextTestId == old(db.nextTestId) && db.nextQuestionId == old(db.nextQuestionId)
      && db.nextAnswerId == old(db.nextAnswerId)
    ensures TestValidationErrors(title, questions) == [] ==>
      && r.Reply? && r.status == 201
      && r.body.id == old(db.nextTestId) && r.body.title == Trim(title)
      && |r.body.questions| == |questions|
      && (forall i :: 0 <= i < |questions| ==> Stores(r.body.questions[i], Clean(questions[i])))
      && db.tests == old(db.tests)[r.body.id := r.body] && db.nextTestId == old(db.nextTestId) + 1
      && db.nextQuestionId == old(db.nextQuestionId) + |questions|
  {
    var errors := TestValidationErrors(title, questions);
    if errors != [] {
      return Invalid(errors);
    }
    AcceptedHasQuestions(title, questions);
    var built := BuildQuestions(CleanAll(questions), db.nextQuestionId, db.nextAnswerId);
    BuiltStores(questions, db.nextQuestionId, db.nextAnswerId);
    var test := Test(db.nextTestId, Trim(title), built.0);
    db.InsertTest(test, db.nextQuestionId + |questions|, built.1);
    r := Reply(201, test);
  }

  /** The validator lets no test without questions through. */
  lemma AcceptedHasQuestions(title: string, questions: seq<QuestionInput>)
    ensures |questions| < 1 ==> QuestionRequired in TestValidationErrors(title, questions)
  {
  }

  /** The body after the sanitizers: every question cleaned, in order. */
  function CleanAll(questions: seq<QuestionInput>): (r: seq<QuestionInput>)
    ensures |r| == |questions| && forall i :: 0 <= i < |questions| ==> r[i] == Clean(questions[i])
  {
    seq(|questions|, i requires 0 <= i < |questions| => Clean(questions[i]))
  }

  /** The built questions hold the cleaned ones, one each, with distinct ids. */
  lemma BuiltStores(questions: seq<QuestionInput>, nextQ: int, nextA: int)
    ensures var built := BuildQuestions(CleanAll(questions), nextQ, nextA);
      && |built.0| == |questions| && DistinctIds(built.0)
      && forall i :: 0 <= i < |questions| ==> Stores(built.0[i], Clean(questions[i]))
  {
    var clean := CleanAll(questions);
    var built := BuildQuestions(clean, nextQ, nextA);
    forall i | 0 <= i < |questions| ensures Stores(built.0[i], Clean(questions[i])) {
      assert clean[i] == Clean(questions[i]);
      assert Stores(built.0[i], clean[i]);
    }
  }

  // ---------------------------------------------------------------------------
  // The list with metadata
  // ---------------------------------------------------------------------------

  /** A result as `include: { results: true }` returns it (without its answer records). */
  datatype ResultRow = ResultRow(id: int, userId: int, testId: int, score: nat, total: nat, createdAt: int)

  function RowOf(r: TestResult): ResultRow {
    ResultRow(r.id, r.userId, r.testId, r.score, r.total, r.createdAt)
  }

  /** `''` when there is too little history, else a level. */
  datatype Difficulty = Blank | Level(level: int)

  datatype QuestionRow = QuestionRow(id: int, text: string)

  datatype TestListing = TestListing(
    id: int, title: string, questions: seq<QuestionRow>, results: seq<ResultRow>,
    lastResult: Option<ResultRow>, difficulty: Difficulty)

  /** The requester's results, most recent first: `filter` then `sort` by `createdAt` descending, then `[0] || null`. */
  function LastResult(results: seq<ResultRow>, requester: int): Option<ResultRow> {
    var mine := SortDesc(Filter(results, (r: ResultRow) => r.userId == requester), (r: ResultRow) => r.createdAt);
    if mine == [] then None else Some(mine[0])
  }

  /** `lastResult` is null exactly when the requester has no result. */
  lemma LastResultNoneIff(results: seq<ResultRow>, requester: int)
    ensures LastResult(results, requester).None? <==> forall i :: 0 <= i < |results| ==> results[i].userId != requester
  {
    var p := (r: ResultRow) => r.userId == requester;
    var key := (r: ResultRow) => r.createdAt;
    var mine := Filter(results, p);
    SortDescCorrect(mine, key);
    if exists i :: 0 <= i < |results| && results[i].userId == requester {
      var i :| 0 <= i < |results| && results[i].userId == requester;
      assert results[i] in results;
      assert results[i] in mine;
      assert results[i] in SortDesc(mine, key);
    } else {
      FilterEmpty(results, p);
    }
  }

  /** Otherwise it is one of the requester's results, with the latest `createdAt`. */
  lemma LastResultIsLatest(results: seq<ResultRow>, requester: int)
    requires LastResult(results, requester).Some?
    ensures var last := LastResult(results, requester).value;
      && last in results && last.userId == requester
      && forall i :: 0 <= i < |results| && results[i].userId == requester ==> results[i].createdAt <= last.createdAt
  {
    var p := (r: ResultRow) => r.userId == requester;
    var key := (r: ResultRow) => r.createdAt;
    var mine := Filter(results, p);
    SortDescCorrect(mine, key);
    var sorted := SortDesc(mine, key);
    assert sorted[0] in mine;
    forall i | 0 <= i < |results| && results[i].userId == requester
      ensures results[i].createdAt <= sorted[0].createdAt
    {
      assert results[i] in mine;
      assert results[i] in sorted;
      var k :| 0 <= k < |sorted| && sorted[k] == results[i];
      if k > 0 { assert key(sorted[0]) >= key(sorted[k]); }
    }
  }

  /** The sum of `score / total` over the results. */
  function SumOfRatios(results: seq<ResultRow>): real
    requires forall i :: 0 <= i < |results| ==> results[i].total > 0
  {
    if results == [] then 0.0
    else results[0].score as real / results[0].total as real + SumOfRatios(results[1..])
  }

  /** `1 - mean(score / total)`, or 0 without results. */
  function AverageFailRate(results: seq<ResultRow>): real
    requires forall i :: 0 <= i < |results| ==> results[i].total > 0
  {
    if |results| == 0 then 0.0 else 1.0 - SumOfRatios(results) / |results| as real
  }

  lemma {:induction false} SumOfRatiosBounds(results: seq<ResultRow>)
    requires forall i :: 0 <= i < |results| ==> results[i].total > 0
    ensures SumOfRatios(results) >= 0.0
    ensures (forall i :: 0 <= i < |results| ==> results[i].score <= results[i].total) ==>
      SumOfRatios(results) <= |results| as real
  {
    if results != [] {
      SumOfRatiosBounds(results[1..]);
      var x := results[0].score as real / results[0].total as real;
      assert x >= 0.0;
      if results[0].score <= results[0].total {
        assert x <= 1.0;
      }
    }
  }

  /**
   * The fail rate never exceeds 1; it is at least 0 when no score exceeds its
   * total (duplicate answers can push a score past the total, and the rate below 0).
   */
  lemma AverageFailRateBounds(results: seq<ResultRow>)
    requires forall i :: 0 <= i < |results| ==> results[i].total > 0
    ensures AverageFailRate(results) <= 1.0
    ensures (forall i :: 0 <= i < |results| ==> results[i].score <= results[i].total) ==>
      0.0 <= AverageFailRate(results)
  {
    SumOfRatiosBounds(results);
    if |results| > 0 {
      var n := |results| as real;
      var s := SumOfRatios(results);
      assert s / n >= 0.0;
      if forall i :: 0 <= i < |results| ==> results[i].score <= results[i].total {
        assert s <= n;
        assert s / n <= 1.0;
      }
    }
  }

  /** `Math.min(5, Math.max(1, Math.round(questionsCount / 5 + averageFailRate * 5)))` once there are more than 5 results. */
  function DifficultyOf(questionsCount: nat, results: seq<ResultRow>): Difficulty
    requires forall i :: 0 <= i < |results| ==> results[i].total > 0
  {
    if |results| > 5 then
      var raw := JsRound(questionsCount as real / 5.0 + AverageFailRate(results) * 5.0);
      Level(if raw > 5 then 5 else if raw < 1 then 1 else raw)
    else Blank
  }

  /** Difficulty is blank with 5 results or fewer, and otherwise a level from 1 to 5. */
  lemma DifficultyGatedAndClamped(questionsCount: nat, results: seq<ResultRow>)
    requires forall i :: 0 <= i < |results| ==> results[i].total > 0
    ensures DifficultyOf(questionsCount, results).Blank? <==> |results| <= 5
    ensures DifficultyOf(questionsCount, results).Level? ==> 1 <= DifficultyOf(questionsCount, results).level <= 5
  {
  }

  function IsResultOf(testId: int): TestResult -> bool {
    (x: TestResult) => x.testId == testId
  }

  /** The results of one test (`include: { results: true }`), in key order. */
  function ResultsOf(results: map<int, TestResult>, next: int, testId: int): (r: seq<ResultRow>)
    requires forall k :: k in results ==> results[k].total > 0
    ensures forall i :: 0 <= i < |r| ==> r[i].testId == testId && r[i].total > 0
  {
    var all := Rows(results, next);
    RowsSatisfy(results, next, (x: TestResult) => x.total > 0);
    var rows := Filter(all, IsResultOf(testId));
    assert forall j :: 0 <= j < |rows| ==> rows[j].total > 0 && rows[j].testId == testId by {
      forall j | 0 <= j < |rows| ensures rows[j].total > 0 && rows[j].testId == testId {
        var x := rows[j];
        assert x in rows;
        var i :| 0 <= i < |all| && all[i] == x;
      }
    }
    RowsOf(rows)
  }

  /** Each stored result as it is serialised, in order. */
  function RowsOf(xs: seq<TestResult>): (r: seq<ResultRow>)
    ensures |r| == |xs| && forall i :: 0 <= i < |xs| ==> r[i] == RowOf(xs[i])
  {
    seq(|xs|, i requires 0 <= i < |xs| => RowOf(xs[i]))
  }

  /**
   * The results included with a test are exactly the stored results of that
   * test: each listed row is the stored result under its id, every stored
   * result of the test is listed, and no id is listed twice.
   */
  lemma ResultsOfCorrect(results: map<int, TestResult>, next: int, testId: int)
    requires Keyed(results, next, ResultId) && forall k :: k in results ==> results[k].total > 0
    ensures var r := ResultsOf(results, next, testId);
      && (forall i :: 0 <= i < |r| ==>
            r[i].id in results && results[r[i].id].testId == testId && r[i] == RowOf(results[r[i].id]))
      && (forall k :: k in results && results[k].testId == testId ==> RowOf(results[k]) in r)
      && (forall i, j :: 0 <= i < j < |r| ==> r[i].id != r[j].id)
  {
    ResultsOfSound(results, next, testId);
    ResultsOfDistinct(results, next, testId);
    ResultsOfComplete(results, next, testId);
  }

  lemma ResultsOfSound(results: map<int, TestResult>, next: int, testId: int)
    requires Keyed(results, next, ResultId) && forall k :: k in results ==> results[k].total > 0
    ensures var r := ResultsOf(results, next, testId);
      && (forall i :: 0 <= i < |r| ==>
            r[i].id in results && results[r[i].id].testId == testId && r[i] == RowOf(results[r[i].id]))
  {
    var rows := Filter(Rows(results, next), IsResultOf(testId));
    var r := ResultsOf(results, next, testId);
    assert r == RowsOf(rows);
    FilterRowsById(results, next, IsResultOf(testId), ResultId);
    forall i | 0 <= i < |r|
      ensures r[i].id in results && results[r[i].id].testId == testId && r[i] == RowOf(results[r[i].id])
    {
      assert r[i] == RowOf(rows[i]) && r[i].id == ResultId(rows[i]);
      assert IsResultOf(testId)(rows[i]);
    }
  }

  lemma ResultsOfDistinct(results: map<int, TestResult>, next: int, testId: int)
    requires Keyed(results, next, ResultId) && forall k :: k in results ==> results[k].total > 0
    ensures var r := ResultsOf(results, next, testId);
      forall i, j :: 0 <= i < j < |r| ==> r[i].id != r[j].id
  {
    var rows := Filter(Rows(results, next), IsResultOf(testId));
    FilterRowsById(results, next, IsResultOf(testId), ResultId);
    var r := ResultsOf(results, next, testId);
    assert r == RowsOf(rows);
    forall i, j | 0 <= i < j < |r| ensures r[i].id != r[j].id {
      assert r[i].id == ResultId(rows[i]) && r[j].id == ResultId(rows[j]);
    }
  }

  lemma ResultsOfComplete(results: map<int, TestResult>, next: int, testId: int)
    requires Keyed(results, next, ResultId) && forall k :: k in results ==> results[k].total > 0
    ensures forall k :: k in results && results[k].testId == testId ==> RowOf(results[k]) in ResultsOf(results, next, testId)
  {
    var rows := Filter(Rows(results, next), IsResultOf(testId));
    var r := ResultsOf(results, next, testId);
    assert r == RowsOf(rows);
    FilterRowsCorrect(results, next, IsResultOf(testId), ResultId);
    forall k | k in results && results[k].testId == testId ensures RowOf(results[k]) in r {
      assert IsResultOf(testId)(results[k]);
      assert results[k] in rows;
      var i :| 0 <= i < |rows| && rows[i] == results[k];
      assert r[i] == RowOf(results[k]);
    }
  }

  /** One entry of the list: the test with its questions and results, and the computed metadata. */
  function Listing(t: Test, results: seq<ResultRow>, requester: int): (l: TestListing)
    requires forall i :: 0 <= i < |results| ==> results[i].total > 0
    ensures l.id == t.id && l.title == t.title && l.results == results
    ensures |l.questions| == |t.questions|
    ensures forall i :: 0 <= i < |t.questions| ==> l.questions[i] == QuestionRow(t.questions[i].id, t.questions[i].text)
    ensures l.lastResult == LastResult(results, requester)
    ensures l.difficulty == DifficultyOf(|t.questions|, results)
    ensures l.difficulty.Blank? <==> |results| <= 5
    ensures l.difficulty.Level? ==> 1 <= l.difficulty.level <= 5
  {
    DifficultyGatedAndClamped(|t.questions|, results);
    TestListing(
      t.id, t.title, seq(|t.questions|, i requires 0 <= i < |t.questions| => QuestionRow(t.questions[i].id, t.questions[i].text)),
      results, LastResult(results, requester), DifficultyOf(|t.questions|, results))
  }

  /** GET `/`: every test with its questions, its results, the requester's last result and its difficulty. */
  function ListTests(tests: map<int, Test>, nextTest: int, results: map<int, TestResult>, nextResult: int, requester: int)
    : (r: seq<TestListing>)
    requires forall k :: k in results ==> results[k].total > 0
    ensures |r| == |Rows(tests, nextTest)|
    ensures forall i :: 0 <= i < |r| ==>
      && r[i].id == Rows(tests, nextTest)[i].id
      && r[i].results == ResultsOf(results, nextResult, r[i].id)
      && r[i].lastResult == LastResult(r[i].results, requester)
      && r[i].difficulty == DifficultyOf(|Rows(tests, nextTest)[i].questions|, r[i].results)
      && (r[i].difficulty.Blank? <==> |r[i].results| <= 5)
      && (r[i].difficulty.Level? ==> 1 <= r[i].difficulty.level <= 5)
      && (forall j :: 0 <= j < |r[i].results| ==> r[i].results[j].testId == r[i].id)
  {
    var ts := Rows(tests, nextTest);
    seq(|ts|, i requires 0 <= i < |ts| => Listing(ts[i], ResultsOf(results, nextResult, ts[i].id), requester))
  }

  /**
   * Entry `i` of GET `/` against the store: it is a stored test, listed with
   * exactly its stored results; `lastResult` is null exactly when the
   * requester has no stored result for it, and otherwise is the requester's
   * stored result for it with the latest `createdAt`.
   */
  lemma ListTestsCorrect(
    tests: map<int, Test>, nextTest: int, results: map<int, TestResult>, nextResult: int, requester: int, i: nat)
    requires Keyed(results, nextResult, ResultId) && forall k :: k in results ==> results[k].total > 0
    requires i < |ListTests(tests, nextTest, results, nextResult, requester)|
    ensures var e := ListTests(tests, nextTest, results, nextResult, requester)[i];
      && Rows(tests, nextTest)[i] in tests.Values && e.id == Rows(tests, nextTest)[i].id
      && (forall j :: 0 <= j < |e.results| ==>
            e.results[j].id in results && results[e.results[j].id].testId == e.id
            && e.results[j] == RowOf(results[e.results[j].id]))
      && (forall k :: k in results && results[k].testId == e.id ==> RowOf(results[k]) in e.results)
      && (e.lastResult.None? <==>
            forall k :: k in results && results[k].testId == e.id ==> results[k].userId != requester)
      && (e.lastResult.Some? ==>
            && e.lastResult.value.id in results && e.lastResult.value == RowOf(results[e.lastResult.value.id])
            && results[e.lastResult.value.id].testId == e.id && e.lastResult.value.userId == requester
            && forall k :: k in results && results[k].testId == e.id && results[k].userId == requester ==>
                 results[k].createdAt <= e.lastResult.value.createdAt)
  {
    var e := ListTests(tests, nextTest, results, nextResult, requester)[i];
    ResultsOfCorrect(results, nextResult, e.id);
    LastResultStored(results, e.results, e.id, requester);
  }

  /** `lastResult` over a test's complete, sound list of results, read against the store. */
  lemma LastResultStored(results: map<int, TestResult>, s: seq<ResultRow>, testId: int, requester: int)
    requires forall j :: 0 <= j < |s| ==>
      s[j].id in results && results[s[j].id].testId == testId && s[j] == RowOf(results[s[j].id])
    requires forall k :: k in results && results[k].testId == testId ==> RowOf(results[k]) in s
    ensures LastResult(s, requester).None? <==>
      forall k :: k in results && results[k].testId == testId ==> results[k].userId != requester
    ensures LastResult(s, requester).Some? ==>
      var last := LastResult(s, requester).value;
      && last.id in results && last == RowOf(results[last.id])
      && results[last.id].testId == testId && last.userId == requester
      && forall k :: k in results && results[k].testId == testId && results[k].userId == requester ==>
           results[k].createdAt <= last.createdAt
  {
    LastResultNoneIff(s, requester);
    forall k | k in results && results[k].testId == testId && results[k].userId == requester
      ensures LastResult(s, requester).Some?
      ensures LastResult(s, requester).Some? ==> results[k].createdAt <= LastResult(s, requester).value.createdAt
    {
      assert RowOf(results[k]) in s;
      var j :| 0 <= j < |s| && s[j] == RowOf(results[k]);
      LastResultIsLatest(s, requester);
    }
    if LastResult(s, requester).Some? {
      LastResultIsLatest(s, requester);
      var last := LastResult(s, requester).value;
      var j :| 0 <= j < |s| && s[j] == last;
    }
  }

  // ---------------------------------------------------------------------------
  // GET /:id, the projection without the answer key
  // ---------------------------------------------------------------------------

  datatype PublicAnswer = PublicAnswer(id: int, text: string)
  datatype PublicQuestion = PublicQuestion(id: int, text: string, answers: seq<PublicAnswer>)
  datatype PublicTest = PublicTest(id: int, title: string, questions: seq<PublicQuestion>)

  function PublicOf(q: Question): (p: PublicQuestion)
    ensures p.id == q.id && p.text == q.text && |p.answers| == |q.answers|
    ensures forall j :: 0 <= j < |q.answers| ==> p.answers[j] == PublicAnswer(q.answers[j].id, q.answers[j].text)
  {
    PublicQuestion(q.id, q.text, seq(|q.answers|, j requires 0 <= j < |q.answers| => PublicAnswer(q.answers[j].id, q.answers[j].text)))
  }

  /** GET `/:id`: a non-numeric id reaches the store as NaN (500); an unknown id is 404; answers lose `isCorrect`. */
  function GetTest(tests: map<int, Test>, idParam: string): (r: Response<PublicTest>)
    ensures ParseInt(idParam).None? ==> r == ServerError()
    ensures ParseInt(idParam).Some? && ParseInt(idParam).value !in tests ==> r == Error(404, "Test not found")
    ensures ParseInt(idParam).Some? && ParseInt(idParam).value in tests ==>
      var t := tests[ParseInt(idParam).value];
      && r.Reply? && r.status == 200 && r.body.id == t.id && r.body.title == t.title
      && |r.body.questions| == |t.questions|
      && forall i :: 0 <= i < |t.questions| ==> r.body.questions[i] == PublicOf(t.questions[i])
  {
    match ParseInt(idParam)
    case None => ServerError()
    case Some(id) =>
      if id !in tests then Error(404, "Test not found")
      else
        var t := tests[id];
        Reply(200, PublicTest(t.id, t.title, seq(|t.questions|, i requires 0 <= i < |t.questions| => PublicOf(t.questions[i]))))
  }

  // ---------------------------------------------------------------------------
  // POST /:id/submit, grading
  // ---------------------------------------------------------------------------

  datatype Submitted = Submitted(questionId: int, answerId: int)

  /** `answer?.isCorrect || false` after the two look-ups; an unknown id is simply wrong. */
  function IsCorrectPair(qs: seq<Question>, s: Submitted): bool {
    match FindFirst(qs, QuestionId, s.questionId)
    case None => false
    case Some(q) =>
      match FindFirst(q.answers, AnswerId, s.answerId)
      case None => false
      case Some(a) => a.isCorrect
  }

  /**
   * Partner of `IsCorrectPair`: when the ids in the test are distinct, a pair
   * is correct exactly when its question is on the test, its answer belongs
   * to that question, and that answer is flagged correct.
   */
  lemma IsCorrectPairIff(qs: seq<Question>, s: Submitted)
    requires DistinctIds(qs)
    ensures IsCorrectPair(qs, s) <==>
      exists i, j :: 0 <= i < |qs| && 0 <= j < |qs[i].answers|
        && qs[i].id == s.questionId && qs[i].answers[j].id == s.answerId && qs[i].answers[j].isCorrect
  {
    if IsCorrectPair(qs, s) {
      var q := FindFirst(qs, QuestionId, s.questionId).value;
      var i :| 0 <= i < |qs| && qs[i] == q;
      var a := FindFirst(q.answers, AnswerId, s.answerId).value;
      var j :| 0 <= j < |q.answers| && q.answers[j] == a;
      assert qs[i].answers[j].isCorrect;
    }
    if exists i, j :: 0 <= i < |qs| && 0 <= j < |qs[i].answers|
        && qs[i].id == s.questionId && qs[i].answers[j].id == s.answerId && qs[i].answers[j].isCorrect {
      var i, j :| 0 <= i < |qs| && 0 <= j < |qs[i].answers|
        && qs[i].id == s.questionId && qs[i].answers[j].id == s.answerId && qs[i].answers[j].isCorrect;
      PairFound(qs, i, j);
    }
  }

  /** With distinct ids, the look-ups of a stored question and answer find that question and answer. */
  lemma PairFound(qs: seq<Question>, i: nat, j: nat)
    requires DistinctIds(qs) && i < |qs| && j < |qs[i].answers|
    ensures FindFirst(qs, QuestionId, qs[i].id) == Some(qs[i])
    ensures FindFirst(qs[i].answers, AnswerId, qs[i].answers[j].id) == Some(qs[i].answers[j])
  {
    FindFirstAt(qs, QuestionId, i);
    FindFirstAt(qs[i].answers, AnswerId, j);
  }

  /** The per-answer records: submitted ids in submitted order, each with its grade. */
  function GradedRecords(qs: seq<Question>, answers: seq<Submitted>): (r: seq<AnswerRecord>)
    ensures |r| == |answers|
    ensures forall i :: 0 <= i < |answers| ==>
      r[i] == AnswerRecord(answers[i].questionId, answers[i].answerId, IsCorrectPair(qs, answers[i]))
  {
    seq(|answers|, i requires 0 <= i < |answers| =>
      AnswerRecord(answers[i].questionId, answers[i].answerId, IsCorrectPair(qs, answers[i])))
  }

  /** The number of records graded correct. */
  function CountCorrect(records: seq<AnswerRecord>): (n: nat)
    ensures n <= |records|
  {
    |Filter(records, (r: AnswerRecord) => r.isCorrect)|
  }

  /**
   * The grading loop of the submit handler (the `map` whose callback bumps
   * `score`): the records are `GradedRecords` and the score counts the
   * correct ones, so it never exceeds the number of submitted answers.
   */
  method Grade(qs: seq<Question>, answers: seq<Submitted>) returns (score: nat, records: seq<AnswerRecord>)
    ensures records == GradedRecords(qs, answers)
    ensures score == CountCorrect(records) && score <= |answers|
  {
    score, records := 0, [];
    var k := 0;
    while k < |answers|
      invariant 0 <= k <= |answers|
      invariant records == GradedRecords(qs, answers[..k])
      invariant score == CountCorrect(records)
    {
      var ans := answers[k];
      var isCorrect := IsCorrectPair(qs, ans);
      if isCorrect {
        score := score + 1;
      }
      GradeStep(qs, answers, k);
      records := records + [AnswerRecord(ans.questionId, ans.answerId, isCorrect)];
      k := k + 1;
    }
    assert answers[..k] == answers;
  }

  /** One more graded answer appends its record and adds one to the count when it is correct. */
  lemma GradeStep(qs: seq<Question>, answers: seq<Submitted>, k: nat)
    requires k < |answers|
    ensures var record := AnswerRecord(answers[k].questionId, answers[k].answerId, IsCorrectPair(qs, answers[k]));
      && GradedRecords(qs, answers[..k + 1]) == GradedRecords(qs, answers[..k]) + [record]
      && CountCorrect(GradedRecords(qs, answers[..k]) + [record])
         == CountCorrect(GradedRecords(qs, answers[..k])) + (if record.isCorrect then 1 else 0)
  {
    var record := AnswerRecord(answers[k].questionId, answers[k].answerId, IsCorrectPair(qs, answers[k]));
    var records := GradedRecords(qs, answers[..k]);
    FilterAppend(records, [record], (r: AnswerRecord) => r.isCorrect);
    assert answers[..k + 1] == answers[..k] + [answers[k]];
  }

  /** A test with one question, answered correctly twice over, scores 2 out of 1. */
  lemma ScoreIsNotCappedByTotal()
    ensures var qs := [Question(1, "q", [Answer(7, "a", true)])];
            var records := GradedRecords(qs, [Submitted(1, 7), Submitted(1, 7)]);
            CountCorrect(records) == 2 > |qs|
  {
    var qs := [Question(1, "q", [Answer(7, "a", true)])];
    var records := GradedRecords(qs, [Submitted(1, 7), Submitted(1, 7)]);
    assert IsCorrectPair(qs, Submitted(1, 7));
    assert Filter(records, (r: AnswerRecord) => r.isCorrect) == records;
  }

  datatype SubmitReply = SubmitReply(score: nat, total: nat, resultId: int)

  /**
   * POST `/:id/submit` (tests.js:133-189): grades against the stored key and
   * persists exactly one result; an unknown test is 404 and persists nothing.
   */
  method SubmitTest(db: Database, idParam: string, requester: int, answers: seq<Submitted>, now: int)
    returns (r: Response<SubmitReply>)
    requires db.Valid()
    modifies db`results, db`nextResultId
    ensures db.Valid()
    ensures ParseInt(idParam).None? ==> r == ServerError() && db.results == old(db.results)
    ensures ParseInt(idParam).Some? && ParseInt(idParam).value !in db.tests ==>
      r == Error(404, "Test not found") && db.results == old(db.results)
    ensures ParseInt(idParam).Some? && ParseInt(idParam).value in db.tests ==>
      var testId := ParseInt(idParam).value;
      var qs := db.tests[testId].questions;
      var records := GradedRecords(qs, answers);
      var rid := old(db.nextResultId);
      && r == Reply(200, SubmitReply(CountCorrect(records), |qs|, rid))
      && db.results == old(db.results)[rid := TestResult(rid, requester, testId, CountCorrect(records), |qs|, now, records)]
  {
    var parsed := ParseInt(idParam);
    if parsed.None? {
      return ServerError();
    }
    var testId := parsed.value;
    if testId !in db.tests {
      return Error(404, "Test not found");
    }
    var test := db.tests[testId];
    var total := |test.questions|;
    var score, records := Grade(test.questions, answers);
    var rid := db.nextResultId;
    ResultsValidInsert(db.results, rid, TestResult(rid, requester, testId, score, total, now, records));
    db.results := db.results[rid := TestResult(rid, requester, testId, score, total, now, records)];
    db.nextResultId := rid + 1;
    r := Reply(200, SubmitReply(score, total, rid));
  }

  // ---------------------------------------------------------------------------
  // GET /:id/results
  // ---------------------------------------------------------------------------

  function ResultCreatedAt(x: TestResult): int { x.createdAt }

  function IsOwnResult(testId: int, requester: int): TestResult -> bool {
    (x: TestResult) => x.testId == testId && x.userId == requester
  }

  /** GET `/:id/results`: the requester's results for the test, newest first. */
  function UserResults(results: map<int, TestResult>, next: int, idParam: string, requester: int)
    : (r: Response<seq<TestResult>>)
    ensures ParseInt(idParam).None? <==> r == ServerError()
  {
    match ParseInt(idParam)
    case None => ServerError()
    case Some(testId) => Reply(200, Query(results, next, IsOwnResult(testId, requester), ResultCreatedAt))
  }

  /** The results listed are exactly the requester's results for that test, once each, newest first. */
  lemma UserResultsCorrect(results: map<int, TestResult>, next: int, idParam: string, requester: int)
    requires Keyed(results, next, ResultId)
    requires ParseInt(idParam).Some?
    ensures var r := UserResults(results, next, idParam, requester);
      && r.Reply?
      && SortedDesc(r.body, ResultCreatedAt)
      && NoDuplicates(r.body)
      && (forall x :: x in r.body ==> x in results.Values && x.testId == ParseInt(idParam).value && x.userId == requester)
      && (forall k :: k in results && results[k].testId == ParseInt(idParam).value && results[k].userId == requester
            ==> results[k] in r.body)
  {
    var testId := ParseInt(idParam).value;
    QueryCorrect(results, next, IsOwnResult(testId, requester), ResultCreatedAt, ResultId);
  }
}
