/** The quiz document of the content schema: its field rules, the initial penalty
    and its preview; and what a quiz that passes all rules guarantees. */
module QuizSchema {
  import opened Basics
  import opened Text
  import opened Content
  import QuestionSchema

  /** The title is required. */
  function TitleRule(title: Option<string>): (v: Validation)
    ensures v.Valid? <==> title.Some?
    ensures v.Invalid? ==> v.message == "Tittel er pakreved"
  {
    Required(title, "Tittel er pakreved")
  }

  /** The wrong-answer penalty is required and lies between 0 and 60 seconds. */
  function PenaltyRule(penalty: Option<real>): (v: Validation)
    ensures v.Valid? <==> penalty.Some? && 0.0 <= penalty.value <= 60.0
    ensures v.Invalid? ==> v.message == "Ma vaere mellom 0 og 60 sekunder"
  {
    if penalty.None? || penalty.value < 0.0 || penalty.value > 60.0 then Invalid("Ma vaere mellom 0 og 60 sekunder")
    else Valid
  }

  /** The question list is required and holds at least one question. */
  function QuestionsRule(questions: Option<seq<Question>>): (v: Validation)
    ensures v.Valid? <==> questions.Some? && |questions.value| >= 1
    ensures v.Invalid? ==> v.message == "Quizen ma ha minst ett sporsmal"
  {
    if questions.None? || |questions.value| < 1 then Invalid("Quizen ma ha minst ett sporsmal") else Valid
  }

  /** A new quiz starts with a penalty of 5 seconds. */
  function InitialQuiz(): (q: Quiz)
    ensures q.wrongAnswerPenalty == Some(5.0)
    ensures PenaltyRule(q.wrongAnswerPenalty).Valid?
  {
    Quiz(None, Some(5.0), None)
  }

  /** A quiz that passes every rule of its own fields, of its questions and of
      their answer options: the only kind of quiz the editor publishes. */
  predicate QuizValid(q: Quiz) {
    && TitleRule(q.title).Valid?
    && PenaltyRule(q.wrongAnswerPenalty).Valid?
    && QuestionsRule(q.questions).Valid?
    && forall i :: 0 <= i < |q.questions.value| ==> QuestionSchema.QuestionValid(q.questions.value[i])
  }

  /** The preview: the title (or 'Uten tittel') and the number of questions
      followed by 'sporsmal'; both arms of the singular/plural choice in the
      schema spell the same word, so the word never changes. */
  function PreviewOf(title: Option<string>, questions: Option<seq<Question>>): (p: Preview)
    ensures p.title == (if Truthy(title) then title.value else "Uten tittel")
    ensures questions.Some? ==> p.subtitle == NatToString(|questions.value|) + " sporsmal"
    ensures questions.None? ==> p.subtitle == "0 sporsmal"
  {
    var count := if questions.Some? then |questions.value| else 0;
    Preview(if Truthy(title) then title.value else "Uten tittel",
            NatToString(count) + " " + (if count == 1 then "sporsmal" else "sporsmal"))
  }
}
