/** Quiz content as the content store hands it out: a quiz document with its
    questions, each question with its answer options, correct answer and media.
    Every field the editor may leave empty is optional. */
module Content {
  import opened Basics

  datatype AnswerOption = AnswerOption(text: Option<string>, isCorrect: Option<bool>)

  /** The media block of a question: its kind ('image', 'video' or 'audio'), the
      video source ('external' or 'file') and the external video address. */
  datatype Media = Media(kind: Option<string>, videoSource: Option<string>, videoUrl: Option<string>)

  datatype Question = Question(
    questionText: Option<string>,
    questionType: Option<string>,
    media: Option<Media>,
    options: Option<seq<AnswerOption>>,
    correctAnswer: Option<string>)

  /** A quiz. The penalty is a number field with no integer rule, so a fraction
      of a second can be published. */
  datatype Quiz = Quiz(
    title: Option<string>,
    wrongAnswerPenalty: Option<real>,
    questions: Option<seq<Question>>)

  /** JavaScript truthiness of an optional string: present and not empty. */
  predicate Truthy(s: Option<string>) {
    s.Some? && s.value != ""
  }

  /** The outcome of one validation rule: valid, or invalid with the message shown to the editor. */
  datatype Validation = Valid | Invalid(message: string)

  /** `rule.required().error(message)`: the field must be present. */
  function Required<T>(value: Option<T>, message: string): (v: Validation)
    ensures v.Valid? <==> value.Some?
    ensures v.Invalid? ==> v.message == message
  {
    if value.None? then Invalid(message) else Valid
  }

  /** What a document or object shows in the editor's lists. */
  datatype Preview = Preview(title: string, subtitle: string)
}
