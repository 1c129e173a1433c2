/**
 * The relational store behind the routes, as tables keyed by id. Each table
 * has an autoincrement counter; `createdAt` values come from the clock,
 * which callers pass in.
 */
module Store {
  import opened Wrappers

  datatype User = User(
    id: int, name: string, email: string, password: string,
    role: string, isDeleted: bool, createdAt: int)

  datatype Category = Category(id: int, name: string)

  datatype Page = Page(
    id: int, title: string, content: string, imagePath: string,
    categoryId: int, createdById: int, createdAt: int)

  /** `parentId` is `None` for a top-level comment and the parent's id for a reply. */
  datatype Comment = Comment(
    id: int, text: string, pageId: int, userId: int, parentId: Option<int>, createdAt: int)

  datatype Answer = Answer(id: int, text: string, isCorrect: bool)

  datatype Question = Question(id: int, text: string, answers: seq<Answer>)

  datatype Test = Test(id: int, title: string, questions: seq<Question>)

  /** One graded answer of a submission, as persisted. */
  datatype AnswerRecord = AnswerRecord(questionId: int, answerId: int, isCorrect: bool)

  datatype TestResult = TestResult(
    id: int, userId: int, testId: int, score: nat, total: nat,
    createdAt: int, answers: seq<AnswerRecord>)

  /** Every key is an id the counter has handed out, and the row stored under it carries it. */
  ghost predicate Keyed<T>(m: map<int, T>, next: int, id: T -> int) {
    next >= 1 && forall k :: k in m ==> 1 <= k < next && id(m[k]) == k
  }

  /** No two users share an email (the column is unique). */
  ghost predicate UniqueEmails(users: map<int, User>) {
    forall i, j :: i in users && j in users && users[i].email == users[j].email ==> i == j
  }

  /** The ids within a test, and within each of its questions, are pairwise distinct. */
  ghost predicate DistinctIds(qs: seq<Question>) {
    && (forall i, j :: 0 <= i < j < |qs| ==> qs[i].id != qs[j].id)
    && forall i :: 0 <= i < |qs| ==>
         forall a, b :: 0 <= a < b < |qs[i].answers| ==> qs[i].answers[a].id != qs[i].answers[b].id
  }

  function UserId(u: User): int { u.id }
  function UserEmail(u: User): string { u.email }
  function QuestionId(q: Question): int { q.id }
  function AnswerId(a: Answer): int { a.id }
  function PageId(p: Page): int { p.id }
  function CommentId(c: Comment): int { c.id }
  function TestId(t: Test): int { t.id }
  function ResultId(r: TestResult): int { r.id }

  ghost predicate UsersValid(users: map<int, User>, next: int) {
    Keyed(users, next, UserId) && UniqueEmails(users)
  }

  ghost predicate CategoriesValid(categories: map<int, Category>) {
    forall k :: k in categories ==> categories[k].id == k
  }

  /** A test is created with at least one question, fresh ids throughout, and never changed. */
  ghost predicate TestsValid(tests: map<int, Test>, next: int) {
    && Keyed(tests, next, TestId)
    && forall k :: k in tests ==> |tests[k].questions| >= 1 && DistinctIds(tests[k].questions)
  }

  /** A result's total is the question count of its test, so it is positive. */
  ghost predicate ResultsValid(results: map<int, TestResult>, next: int) {
    && Keyed(results, next, ResultId)
    && forall k :: k in results ==> results[k].total >= 1
  }

  /** Inserting a row under the next id, with that id, keeps a table keyed. */
  lemma KeyedInsert<T>(m: map<int, T>, next: int, id: T -> int, x: T)
    requires Keyed(m, next, id) && id(x) == next
    ensures Keyed(m[next := x], next + 1, id)
  {
    var m' := m[next := x];
    forall k | k in m' ensures 1 <= k < next + 1 && id(m'[k]) == k {
      if k != next { assert m'[k] == m[k]; }
    }
  }

  /** Removing a key keeps a table keyed. */
  lemma KeyedRemove<T>(m: map<int, T>, next: int, id: T -> int, key: int)
    requires Keyed(m, next, id)
    ensures Keyed(m - {key}, next, id)
  {
    forall k | k in m - {key} ensures 1 <= k < next && id((m - {key})[k]) == k {
      assert (m - {key})[k] == m[k];
    }
  }

  /** Replacing a stored row by one with the same id keeps a table keyed. */
  lemma KeyedUpdate<T>(m: map<int, T>, next: int, id: T -> int, key: int, x: T)
    requires Keyed(m, next, id) && key in m && id(x) == key
    ensures Keyed(m[key := x], next, id)
  {
    var m' := m[key := x];
    forall k | k in m' ensures 1 <= k < next && id(m'[k]) == k {
      if k != key { assert m'[k] == m[k]; }
    }
  }

  /** Replacing a user by one with the same id and email keeps the users table valid. */
  lemma UsersValidUpdate(users: map<int, User>, next: int, id: int, u: User)
    requires UsersValid(users, next) && id in users && u.id == id && u.email == users[id].email
    ensures UsersValid(users[id := u], next)
  {
    KeyedUpdate(users, next, UserId, id, u);
    var m := users[id := u];
    forall i, j | i in m && j in m && m[i].email == m[j].email ensures i == j {
      assert m[i].email == users[i].email && m[j].email == users[j].email;
    }
  }

  /** Removing a user keeps the users table valid. */
  lemma UsersValidRemove(users: map<int, User>, next: int, id: int)
    requires UsersValid(users, next)
    ensures UsersValid(users - {id}, next)
  {
    KeyedRemove(users, next, UserId, id);
    var m := users - {id};
    forall i, j | i in m && j in m && m[i].email == m[j].email ensures i == j {
      assert m[i] == users[i] && m[j] == users[j];
    }
  }

  /** A user with the next id and an email nobody has keeps the users table valid. */
  lemma UsersValidInsert(users: map<int, User>, next: int, u: User)
    requires UsersValid(users, next) && u.id == next
    requires forall k :: k in users ==> users[k].email != u.email
    ensures UsersValid(users[next := u], next + 1)
  {
    KeyedInsert(users, next, UserId, u);
    var m := users[next := u];
    forall i, j | i in m && j in m && m[i].email == m[j].email ensures i == j {
      if i != next { assert m[i] == users[i]; }
      if j != next { assert m[j] == users[j]; }
    }
  }

  /** Storing a fresh test under the next id keeps the tests table valid. */
  lemma TestsValidInsert(tests: map<int, Test>, next: int, t: Test)
    requires TestsValid(tests, next)
    requires t.id == next && |t.questions| >= 1 && DistinctIds(t.questions)
    ensures TestsValid(tests[next := t], next + 1)
  {
    var m := tests[next := t];
    forall k | k in m ensures 1 <= k < next + 1 && TestId(m[k]) == k {
      if k != next { assert m[k] == tests[k]; }
    }
  }

  /** Storing a result with a positive total under the next id keeps the results table valid. */
  lemma ResultsValidInsert(results: map<int, TestResult>, next: int, r: TestResult)
    requires ResultsValid(results, next)
    requires r.id == next && r.total >= 1
    ensures ResultsValid(results[next := r], next + 1)
  {
    var m := results[next := r];
    forall k | k in m ensures 1 <= k < next + 1 && ResultId(m[k]) == k {
      if k != next { assert m[k] == results[k]; }
    }
  }

  class Database {
    var users: map<int, User>
    var categories: map<int, Category>
    var pages: map<int, Page>
    var comments: map<int, Comment>
    var tests: map<int, Test>
    var results: map<int, TestResult>
    var nextUserId: int
    var nextPageId: int
    var nextCommentId: int
    var nextTestId: int
    var nextQuestionId: int
    var nextAnswerId: int
    var nextResultId: int

    /** The invariant every handler keeps: one conjunct per table. */
    ghost predicate Valid()
      reads this
    {
      && UsersValid(users, nextUserId)
      && CategoriesValid(categories)
      && Keyed(pages, nextPageId, PageId)
      && Keyed(comments, nextCommentId, CommentId)
      && TestsValid(tests, nextTestId)
      && ResultsValid(results, nextResultId)
      && nextQuestionId >= 1 && nextAnswerId >= 1
    }

    /**
     * `test.create` with its nested questions and answers: the test is stored
     * under the next id, and the question and answer counters move on.
     */
    method InsertTest(t: Test, nextQ: int, nextA: int)
      requires Valid() && t.id == nextTestId && |t.questions| >= 1 && DistinctIds(t.questions)
      requires nextQ >= 1 && nextA >= 1
      modifies this`tests, this`nextTestId, this`nextQuestionId, this`nextAnswerId
      ensures Valid()
      ensures tests == old(tests)[t.id := t] && nextTestId == old(nextTestId) + 1
      ensures nextQuestionId == nextQ && nextAnswerId == nextA
    {
      TestsValidInsert(tests, nextTestId, t);
      tests := tests[t.id := t];
      nextTestId := nextTestId + 1;
      nextQuestionId := nextQ;
      nextAnswerId := nextA;
    }

    /** An empty store. */
    constructor ()
      ensures Valid()
      ensures users == map[] && pages == map[] && comments == map[]
      ensures tests == map[] && results == map[] && categories == map[]
    {
      users, categories, pages, comments, tests, results := map[], map[], map[], map[], map[], map[];
      nextUserId, nextPageId, nextCommentId, nextTestId := 1, 1, 1, 1;
      nextQuestionId, nextAnswerId, nextResultId := 1, 1, 1;
    }
  }
}
