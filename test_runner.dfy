/**
 * The quiz runner (frontend/src/components/TestRunner.jsx): the test is
 * shown one question at a time; each answer is recorded and the last one
 * sends the whole list for grading. Fetching the test and posting the
 * answers are I/O: the fetched questions come in through `Load`, the posted
 * lists are recorded in `sent`, and the server's reply comes in through
 * `Receive`.
 */
module TestRunner {
  import opened Wrappers

  /** A question as the runner sees it: its id and the ids of its answers. */
  datatype RunnerQuestion = RunnerQuestion(id: int, answerIds: seq<int>)

  /** `{ questionId, answerId }`. */
  datatype Pick = Pick(questionId: int, answerId: int)

  /** `{ score, total }` as the server returns it. */
  datatype Score = Score(score: int, total: int)

  /** The list sent for the first `|chosen|` questions, given the answer chosen for each. */
  function Picks(questions: seq<RunnerQuestion>, chosen: seq<int>): (r: seq<Pick>)
    requires |chosen| <= |questions|
    ensures |r| == |chosen|
    ensures forall i :: 0 <= i < |r| ==> r[i] == Pick(questions[i].id, chosen[i])
  {
    seq(|chosen|, i requires 0 <= i < |chosen| => Pick(questions[i].id, chosen[i]))
  }

  /** Recording one more choice extends the list by that question's pick. */
  lemma PicksSnoc(questions: seq<RunnerQuestion>, chosen: seq<int>, a: int)
    requires |chosen| < |questions|
    ensures Picks(questions, chosen + [a]) == Picks(questions, chosen) + [Pick(questions[|chosen|].id, a)]
  {
  }

  /** A complete list has one entry per question, with the question ids in question order. */
  lemma CompletePicks(questions: seq<RunnerQuestion>, chosen: seq<int>)
    requires |chosen| == |questions|
    ensures |Picks(questions, chosen)| == |questions|
    ensures forall i :: 0 <= i < |questions| ==> Picks(questions, chosen)[i].questionId == questions[i].id
    ensures forall i :: 0 <= i < |questions| ==> Picks(questions, chosen)[i].answerId == chosen[i]
  {
  }

  class Runner {
    var test: Option<seq<RunnerQuestion>>
    var currentIndex: int
    var selectedAnswer: Option<int>
    var answers: seq<Pick>
    var submitted: bool
    var result: Option<Score>
    /** Every answer list posted for grading, in order. */
    var sent: seq<seq<Pick>>
    /** The answer chosen for each question answered so far. */
    ghost var chosen: seq<int>

    /** The question screen is shown: a test with at least one question has arrived. */
    predicate Ready()
      reads this
    {
      test.Some? && |test.value| > 0
    }

    /**
     * The index stays on a question, and the recorded answers are those of
     * the questions before it, in order; every list sent covers every
     * question.
     */
    ghost predicate Valid()
      reads this
    {
      && 0 <= currentIndex
      && |chosen| == currentIndex
      && (test.None? ==> currentIndex == 0 && sent == [] && answers == [])
      && (test.Some? ==>
            && (Ready() ==> currentIndex < |test.value|)
            && (!Ready() ==> currentIndex == 0 && sent == [])
            && |chosen| <= |test.value|
            && answers == Picks(test.value, chosen)
            && forall k :: 0 <= k < |sent| ==>
                 |sent[k]| == |test.value|
                 && forall i :: 0 <= i < |test.value| ==> sent[k][i].questionId == test.value[i].id)
    }

    constructor ()
      ensures Valid() && test.None? && sent == []
      ensures currentIndex == 0 && selectedAnswer.None? && answers == [] && !submitted && result.None?
    {
      test := None;
      currentIndex := 0;
      selectedAnswer := None;
      answers := [];
      submitted := false;
      result := None;
      sent := [];
      chosen := [];
    }

    /**
     * `setTest(res.data)`, once per mounted test. The effect would run again
     * on a new `id`, without resetting the progress; the runner is modelled
     * for one test per mount, so a second load is outside the model.
     */
    method Load(questions: seq<RunnerQuestion>)
      requires Valid() && test.None?
      modifies this
      ensures Valid() && test == Some(questions)
      ensures currentIndex == old(currentIndex) && answers == old(answers) && sent == old(sent)
      ensures selectedAnswer == old(selectedAnswer) && submitted == old(submitted)
    {
      test := Some(questions);
    }

    /** `handleAnswerSelect`. */
    method Select(answerId: int)
      requires Valid()
      modifies this
      ensures Valid() && selectedAnswer == Some(answerId)
      ensures test == old(test) && currentIndex == old(currentIndex) && answers == old(answers) && sent == old(sent)
      ensures submitted == old(submitted)
    {
      selectedAnswer := Some(answerId);
    }

    /**
     * The answer button: disabled while nothing is selected, and not shown
     * before the test arrives or after the result. On a question before the
     * last it appends the pick, clears the selection and moves on; on the
     * last it posts the answers so far plus this pick and changes nothing
     * else.
     */
    method SubmitAnswer()
      requires Valid()
      modifies this
      ensures Valid() && test == old(test) && submitted == old(submitted) && result == old(result)
      ensures !old(Ready()) || old(submitted) || old(selectedAnswer).None? ==>
        currentIndex == old(currentIndex) && answers == old(answers) && sent == old(sent)
        && selectedAnswer == old(selectedAnswer)
      ensures old(Ready()) && !old(submitted) && old(selectedAnswer).Some? ==>
        var pick := Pick(old(test).value[old(currentIndex)].id, old(selectedAnswer).value);
        if old(currentIndex) + 1 < |old(test).value| then
          && answers == old(answers) + [pick]
          && selectedAnswer.None?
          && currentIndex == old(currentIndex) + 1
          && sent == old(sent)
        else
          && sent == old(sent) + [old(answers) + [pick]]
          && currentIndex == old(currentIndex) && answers == old(answers)
          && selectedAnswer == old(selectedAnswer)
    {
      if !Ready() || submitted || selectedAnswer.None? {
        return;
      }
      var questions := test.value;
      var pick := Pick(questions[currentIndex].id, selectedAnswer.value);
      PicksSnoc(questions, chosen, selectedAnswer.value);
      if currentIndex + 1 < |questions| {
        answers := answers + [pick];
        chosen := chosen + [selectedAnswer.value];
        selectedAnswer := None;
        currentIndex := currentIndex + 1;
      } else {
        var finalAnswers := answers + [pick];
        CompletePicks(questions, chosen + [selectedAnswer.value]);
        sent := sent + [finalAnswers];
      }
    }

    /** The grading reply: `setResult`, then `setSubmitted(true)`. */
    method Receive(score: Score)
      requires Valid()
      modifies this
      ensures Valid() && result == Some(score) && submitted
      ensures test == old(test) && currentIndex == old(currentIndex) && answers == old(answers) && sent == old(sent)
    {
      result := Some(score);
      submitted := true;
    }
  }
}
