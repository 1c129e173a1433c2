/**
 * The quiz editor (frontend/src/components/Modal/ModalTestForm.jsx): the form
 * state, its edits, the mapping of the data it is opened with, and the
 * validator that decides whether the form is submitted.
 */
module TestForm {
  import opened Wrappers
  import opened Text

  datatype AnswerDraft = AnswerDraft(text: string, isCorrect: bool)

  datatype QuestionDraft = QuestionDraft(text: string, answers: seq<AnswerDraft>)

  datatype FormData = FormData(title: string, questions: seq<QuestionDraft>)

  const BlankAnswer := AnswerDraft("", false)

  /** A question with blank text and four blank answers, none correct. */
  const BlankQuestion := QuestionDraft("", [BlankAnswer, BlankAnswer, BlankAnswer, BlankAnswer])

  /** The state the form is created with. */
  const InitialForm := FormData("", [BlankQuestion])

  const TextMessage := "Каждый вопрос должен иметь текст"
  const CountMessage := "Каждый вопрос должен иметь 4 варианта"
  const FillMessage := "Все варианты должны быть заполнены"
  const OneCorrectMessage := "В каждом вопросе должен быть один правильный ответ"

  /** `answers.filter(a => a.isCorrect).length`. */
  function CorrectCount(answers: seq<AnswerDraft>): nat {
    if answers == [] then 0
    else (if answers[0].isCorrect then 1 else 0) + CorrectCount(answers[1..])
  }

  /** No answer is flagged, so none is counted. */
  lemma {:induction false} CorrectCountNone(answers: seq<AnswerDraft>)
    requires forall i :: 0 <= i < |answers| ==> !answers[i].isCorrect
    ensures CorrectCount(answers) == 0
  {
    if answers != [] {
      CorrectCountNone(answers[1..]);
    }
  }

  /** Exactly one answer, at `k`, is flagged, so one is counted. */
  lemma {:induction false} CorrectCountOne(answers: seq<AnswerDraft>, k: int)
    requires 0 <= k < |answers|
    requires forall i :: 0 <= i < |answers| ==> (answers[i].isCorrect <==> i == k)
    ensures CorrectCount(answers) == 1
  {
    var rest := answers[1..];
    if k == 0 {
      CorrectCountNone(rest);
    } else {
      CorrectCountOne(rest, k - 1);
    }
  }

  /** The count depends only on the flags. */
  lemma {:induction false} CorrectCountFlags(a: seq<AnswerDraft>, b: seq<AnswerDraft>)
    requires |a| == |b|
    requires forall i :: 0 <= i < |a| ==> a[i].isCorrect == b[i].isCorrect
    ensures CorrectCount(a) == CorrectCount(b)
  {
    if a != [] {
      CorrectCountFlags(a[1..], b[1..]);
    }
  }

  /** The checks on one question, in their order; `None` when it passes. */
  function QuestionError(q: QuestionDraft): Option<string> {
    if IsBlank(q.text) then Some(TextMessage)
    else if |q.answers| < 4 then Some(CountMessage)
    else if exists i :: 0 <= i < |q.answers| && IsBlank(q.answers[i].text) then Some(FillMessage)
    else if CorrectCount(q.answers) != 1 then Some(OneCorrectMessage)
    else None
  }

  /** What a complete question is. */
  predicate QuestionComplete(q: QuestionDraft) {
    && !IsBlank(q.text)
    && |q.answers| >= 4
    && (forall i :: 0 <= i < |q.answers| ==> !IsBlank(q.answers[i].text))
    && CorrectCount(q.answers) == 1
  }

  /**
   * A question passes exactly when it is complete, and each message names
   * the first check it fails: text, then count, then answer texts, then the
   * number of correct answers.
   */
  lemma QuestionErrorOrder(q: QuestionDraft)
    ensures QuestionError(q).None? <==> QuestionComplete(q)
    ensures QuestionError(q) == Some(TextMessage) <==> IsBlank(q.text)
    ensures QuestionError(q) == Some(CountMessage) <==> !IsBlank(q.text) && |q.answers| < 4
    ensures QuestionError(q) == Some(FillMessage) <==>
      && !IsBlank(q.text) && |q.answers| >= 4
      && exists i :: 0 <= i < |q.answers| && IsBlank(q.answers[i].text)
    ensures QuestionError(q) == Some(OneCorrectMessage) <==>
      && !IsBlank(q.text) && |q.answers| >= 4
      && (forall i :: 0 <= i < |q.answers| ==> !IsBlank(q.answers[i].text))
      && CorrectCount(q.answers) != 1
  {
  }

  /** The error of the first question that fails, if any. */
  function FirstError(qs: seq<QuestionDraft>): Option<string> {
    if qs == [] then None
    else if QuestionError(qs[0]).Some? then QuestionError(qs[0])
    else FirstError(qs[1..])
  }

  /** The form passes exactly when every question is complete. */
  lemma {:induction false} FirstErrorNoneIff(qs: seq<QuestionDraft>)
    ensures FirstError(qs).None? <==> forall i :: 0 <= i < |qs| ==> QuestionComplete(qs[i])
  {
    if qs != [] {
      FirstErrorNoneIff(qs[1..]);
      QuestionErrorOrder(qs[0]);
      forall i | 0 <= i < |qs| && QuestionError(qs[0]).None? && FirstError(qs[1..]).None?
        ensures QuestionComplete(qs[i])
      {
        if i > 0 { assert qs[i] == qs[1..][i - 1]; }
      }
    }
  }

  /** A reported error is the error of some question all of whose predecessors pass. */
  lemma {:induction false} FirstErrorIsFirst(qs: seq<QuestionDraft>)
    requires FirstError(qs).Some?
    ensures exists i :: 0 <= i < |qs| && QuestionError(qs[i]) == FirstError(qs)
                        && forall j :: 0 <= j < i ==> QuestionError(qs[j]).None?
  {
    if QuestionError(qs[0]).None? {
      FirstErrorIsFirst(qs[1..]);
      var i :| 0 <= i < |qs[1..]| && QuestionError(qs[1..][i]) == FirstError(qs[1..])
               && forall j :: 0 <= j < i ==> QuestionError(qs[1..][j]).None?;
      assert QuestionError(qs[i + 1]) == FirstError(qs);
      forall j | 0 <= j < i + 1 ensures QuestionError(qs[j]).None? {
        if j > 0 { assert qs[j] == qs[1..][j - 1]; }
      }
    } else {
      assert QuestionError(qs[0]) == FirstError(qs);
    }
  }

  /** A form with no questions at all passes the validator. */
  lemma NoQuestionsPass(title: string)
    ensures FirstError(FormData(title, []).questions).None?
  {
  }

  /** `validateForm`: the `for … of` loop that returns the first failing check. */
  method ValidateForm(form: FormData) returns (r: Option<string>)
    ensures r == FirstError(form.questions)
  {
    var k := 0;
    while k < |form.questions|
      invariant 0 <= k <= |form.questions|
      invariant FirstError(form.questions) == FirstError(form.questions[k..])
    {
      var q := form.questions[k];
      assert form.questions[k..][1..] == form.questions[k + 1..];
      if IsBlank(q.text) {
        return Some(TextMessage);
      }
      if |q.answers| < 4 {
        return Some(CountMessage);
      }
      var i := 0;
      while i < |q.answers|
        invariant 0 <= i <= |q.answers|
        invariant forall j :: 0 <= j < i ==> !IsBlank(q.answers[j].text)
      {
        if IsBlank(q.answers[i].text) {
          return Some(FillMessage);
        }
        i := i + 1;
      }
      var correct := 0;
      i := 0;
      while i < |q.answers|
        invariant 0 <= i <= |q.answers|
        invariant correct + CorrectCount(q.answers[i..]) == CorrectCount(q.answers)
      {
        assert q.answers[i..][1..] == q.answers[i + 1..];
        if q.answers[i].isCorrect {
          correct := correct + 1;
        }
        i := i + 1;
      }
      assert q.answers[i..] == [];
      if correct != 1 {
        return Some(OneCorrectMessage);
      }
      k := k + 1;
    }
    assert form.questions[k..] == [];
    return None;
  }

  /** `handleSubmit`: an alert with the validator's message, or `onSubmit(formData)`. */
  datatype SubmitOutcome = Alert(message: string) | Submitted(form: FormData)

  function Submit(form: FormData): SubmitOutcome {
    match FirstError(form.questions)
    case Some(m) => Alert(m)
    case None => Submitted(form)
  }

  /** The form is handed on, unchanged, exactly when every question is complete. */
  lemma SubmitOnlyComplete(form: FormData)
    ensures Submit(form).Submitted? <==> forall i :: 0 <= i < |form.questions| ==> QuestionComplete(form.questions[i])
    ensures Submit(form).Submitted? ==> Submit(form).form == form
  {
    FirstErrorNoneIff(form.questions);
  }

  /** The answers of `handleCorrectSelect`: each keeps its text, and only index `k` is correct. */
  function MarkOnly(answers: seq<AnswerDraft>, k: int): (r: seq<AnswerDraft>)
    ensures |r| == |answers|
    ensures forall i :: 0 <= i < |r| ==> r[i].text == answers[i].text && (r[i].isCorrect <==> i == k)
  {
    seq(|answers|, i requires 0 <= i < |answers| => answers[i].(isCorrect := i == k))
  }

  /** `handleCorrectSelect(qIndex, aIndex)`. */
  function SelectCorrect(form: FormData, q: nat, a: int): (r: FormData)
    requires q < |form.questions|
    ensures r.title == form.title && |r.questions| == |form.questions|
    ensures forall i :: 0 <= i < |r.questions| && i != q ==> r.questions[i] == form.questions[i]
    ensures r.questions[q].text == form.questions[q].text
  {
    var old_q := form.questions[q];
    form.(questions := form.questions[q := old_q.(answers := MarkOnly(old_q.answers, a))])
  }

  /** After selecting answer `a` of question `q`, that question has exactly one correct answer, at `a`. */
  lemma SelectCorrectOne(form: FormData, q: nat, a: nat)
    requires q < |form.questions| && a < |form.questions[q].answers|
    ensures var answers := SelectCorrect(form, q, a).questions[q].answers;
      && |answers| == |form.questions[q].answers|
      && answers[a].isCorrect
      && (forall i :: 0 <= i < |answers| ==> answers[i].text == form.questions[q].answers[i].text)
      && CorrectCount(answers) == 1
  {
    var answers := SelectCorrect(form, q, a).questions[q].answers;
    CorrectCountOne(answers, a);
  }

  /** Selecting the same answer twice is selecting it once. */
  lemma SelectCorrectIdempotent(form: FormData, q: nat, a: int)
    requires q < |form.questions|
    ensures SelectCorrect(SelectCorrect(form, q, a), q, a) == SelectCorrect(form, q, a)
  {
    var once := SelectCorrect(form, q, a);
    var twice := SelectCorrect(once, q, a);
    assert twice.questions[q].answers == once.questions[q].answers;
    assert twice.questions == once.questions;
  }

  /** `addQuestion`. */
  function AddQuestion(form: FormData): (r: FormData)
    ensures r.title == form.title && |r.questions| == |form.questions| + 1
    ensures r.questions[..|form.questions|] == form.questions
  {
    form.(questions := form.questions + [BlankQuestion])
  }

  /** The added question is blank with four blank, non-correct answers, so the form cannot be submitted until it is filled. */
  lemma AddQuestionBlocksSubmit(form: FormData)
    ensures var added := AddQuestion(form).questions[|form.questions|];
      && added.text == [] && |added.answers| == 4
      && forall i :: 0 <= i < 4 ==> added.answers[i] == AnswerDraft("", false)
    ensures Submit(AddQuestion(form)).Alert?
  {
    var r := AddQuestion(form);
    FirstErrorNoneIff(r.questions);
    assert !QuestionComplete(r.questions[|form.questions|]);
  }

  /** `handleTitleChange`. */
  function SetTitle(form: FormData, value: string): (r: FormData)
    ensures r.title == value && r.questions == form.questions
  {
    form.(title := value)
  }

  /** `handleQuestionChange(qIndex, value)`. */
  function SetQuestionText(form: FormData, q: nat, value: string): (r: FormData)
    requires q < |form.questions|
    ensures r.title == form.title && |r.questions| == |form.questions|
    ensures forall i :: 0 <= i < |r.questions| && i != q ==> r.questions[i] == form.questions[i]
    ensures r.questions[q].text == value && r.questions[q].answers == form.questions[q].answers
  {
    form.(questions := form.questions[q := form.questions[q].(text := value)])
  }

  /** `handleAnswerChange(qIndex, aIndex, value)`. */
  function SetAnswerText(form: FormData, q: nat, a: nat, value: string): (r: FormData)
    requires q < |form.questions| && a < |form.questions[q].answers|
    ensures r.title == form.title && |r.questions| == |form.questions|
    ensures forall i :: 0 <= i < |r.questions| && i != q ==> r.questions[i] == form.questions[i]
    ensures var before := form.questions[q].answers;
      var after := r.questions[q].answers;
      && r.questions[q].text == form.questions[q].text
      && |after| == |before|
      && after[a] == AnswerDraft(value, before[a].isCorrect)
      && forall i :: 0 <= i < |after| && i != a ==> after[i] == before[i]
  {
    var old_q := form.questions[q];
    var answers := old_q.answers[a := old_q.answers[a].(text := value)];
    form.(questions := form.questions[q := old_q.(answers := answers)])
  }

  /** Editing texts never changes which answers are correct. */
  lemma TextEditsKeepCorrectCount(form: FormData, q: nat, a: nat, value: string)
    requires q < |form.questions| && a < |form.questions[q].answers|
    ensures CorrectCount(SetAnswerText(form, q, a, value).questions[q].answers) == CorrectCount(form.questions[q].answers)
    ensures CorrectCount(SetQuestionText(form, q, value).questions[q].answers) == CorrectCount(form.questions[q].answers)
  {
    CorrectCountFlags(SetAnswerText(form, q, a, value).questions[q].answers, form.questions[q].answers);
  }

  /** A JavaScript value as far as `!!value` sees it. */
  datatype Loose = Undefined | Null | Flag(b: bool) | Number(n: int) | Str(s: string)

  /** JavaScript truthiness (`NaN` is not modelled). */
  predicate Truthy(v: Loose) {
    match v
    case Flag(b) => b
    case Number(n) => n != 0
    case Str(s) => s != []
    case _ => false
  }

  /** `value || ''` for a field that is a string or missing. */
  function OrEmpty(s: Option<string>): string {
    if s.Some? then s.value else ""
  }

  datatype InitialAnswer = InitialAnswer(text: Option<string>, isCorrect: Loose)

  datatype InitialQuestion = InitialQuestion(text: Option<string>, answers: Option<seq<InitialAnswer>>)

  datatype InitialData = InitialData(title: Option<string>, questions: Option<seq<InitialQuestion>>)

  function MapAnswer(a: InitialAnswer): AnswerDraft {
    AnswerDraft(OrEmpty(a.text), Truthy(a.isCorrect))
  }

  function MapQuestion(q: InitialQuestion): QuestionDraft {
    if q.answers.Some? && |q.answers.value| > 0
    then QuestionDraft(OrEmpty(q.text), seq(|q.answers.value|, i requires 0 <= i < |q.answers.value| => MapAnswer(q.answers.value[i])))
    else QuestionDraft(OrEmpty(q.text), BlankQuestion.answers)
  }

  /** The effect on `initialData`: `None` (a null `initialData`) leaves the form as it was. */
  function FromInitial(current: FormData, init: Option<InitialData>): (r: FormData)
    ensures init.None? ==> r == current
  {
    match init
    case None => current
    case Some(d) =>
      var qs := if d.questions.Some? then d.questions.value else [];
      FormData(OrEmpty(d.title), seq(|qs|, i requires 0 <= i < |qs| => MapQuestion(qs[i])))
  }

  /**
   * The mapping keeps the questions and their answers in order, coerces
   * `isCorrect` to a boolean by truthiness, turns missing texts into "",
   * and gives a question without answers four blank ones.
   */
  lemma FromInitialShape(current: FormData, d: InitialData)
    ensures var r := FromInitial(current, Some(d));
      var qs := if d.questions.Some? then d.questions.value else [];
      && r.title == OrEmpty(d.title)
      && |r.questions| == |qs|
      && forall i :: 0 <= i < |qs| ==>
           var q := qs[i];
           && r.questions[i].text == OrEmpty(q.text)
           && (q.answers.None? || q.answers.value == [] ==> r.questions[i].answers == BlankQuestion.answers)
           && (q.answers.Some? && q.answers.value != [] ==>
                 && |r.questions[i].answers| == |q.answers.value|
                 && forall j :: 0 <= j < |q.answers.value| ==>
                      r.questions[i].answers[j] == AnswerDraft(OrEmpty(q.answers.value[j].text), Truthy(q.answers.value[j].isCorrect)))
  {
    var r := FromInitial(current, Some(d));
    var qs := if d.questions.Some? then d.questions.value else [];
    forall i | 0 <= i < |qs| ensures r.questions[i] == MapQuestion(qs[i]) {
    }
  }
}
