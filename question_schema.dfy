/** The question object of the content schema: the custom validators of its
    options and correct answer, the visibility of its media fields, its initial
    values and its preview. */
module QuestionSchema {
  import opened Basics
  import opened Text
  import opened Content
  import AnswerOptionSchema

  const Radio: string := "radio"
  const TextAnswer: string := "text"

  /** How many options are marked correct (`options.filter(opt => opt.isCorrect).length`). */
  function CountCorrect(options: seq<AnswerOption>): (c: nat)
    ensures c <= |options|
    ensures c == 0 <==> forall i :: 0 <= i < |options| ==> !AnswerOptionSchema.MarkedCorrect(options[i])
  {
    if options == [] then 0
    else CountCorrect(options[..|options| - 1]) + (if AnswerOptionSchema.MarkedCorrect(options[|options| - 1]) then 1 else 0)
  }

  /** The options rule. It only constrains radio questions: those need at least two
      options, and at least one of them marked correct (several are allowed). */
  function OptionsRule(options: Option<seq<AnswerOption>>, questionType: Option<string>): (v: Validation)
    ensures v.Valid? <==>
              questionType != Some(Radio)
              || (options.Some? && |options.value| >= 2
                  && exists i :: 0 <= i < |options.value| && AnswerOptionSchema.MarkedCorrect(options.value[i]))
    ensures v.Invalid? && (options.None? || |options.value| < 2) ==> v.message == "Flervalg krever minst 2 alternativer"
    ensures v.Invalid? && options.Some? && |options.value| >= 2 ==> v.message == "Minst ett alternativ må være markert som riktig"
  {
    if questionType == Some(Radio) then
      if options.None? || |options.value| < 2 then Invalid("Flervalg krever minst 2 alternativer")
      else if CountCorrect(options.value) == 0 then Invalid("Minst ett alternativ må være markert som riktig")
      else Valid
    else Valid
  }

  /** The correct-answer rule: a text question needs a non-empty correct answer. */
  function CorrectAnswerRule(correctAnswer: Option<string>, questionType: Option<string>): (v: Validation)
    ensures v.Valid? <==> questionType != Some(TextAnswer) || Truthy(correctAnswer)
    ensures v.Invalid? ==> v.message == "Riktig svar er påkrevd for tekstspørsmål"
  {
    if questionType == Some(TextAnswer) && !Truthy(correctAnswer) then Invalid("Riktig svar er påkrevd for tekstspørsmål")
    else Valid
  }

  /** The question text is required. */
  function QuestionTextRule(questionText: Option<string>): (v: Validation)
    ensures v.Valid? <==> questionText.Some?
    ensures v.Invalid? ==> v.message == "Spørsmål er påkrevd"
  {
    Required(questionText, "Spørsmål er påkrevd")
  }

  /** The question type is required (with the schema's default message). */
  predicate QuestionTypeValid(questionType: Option<string>) {
    questionType.Some?
  }

  /** A question passes every rule of its own fields and of its options' fields. */
  predicate QuestionValid(q: Question) {
    && QuestionTextRule(q.questionText).Valid?
    && QuestionTypeValid(q.questionType)
    && OptionsRule(q.options, q.questionType).Valid?
    && CorrectAnswerRule(q.correctAnswer, q.questionType).Valid?
    && (q.options.Some? ==> forall i :: 0 <= i < |q.options.value| ==> AnswerOptionSchema.TextRule(q.options.value[i].text).Valid?)
  }

  /** A new question: a radio question whose media block, if opened, starts with an
      external video source. */
  function InitialQuestion(): (q: Question)
    ensures q.questionType == Some(Radio)
  {
    Question(None, Some(Radio), None, None, None)
  }

  function InitialMedia(): (m: Media)
    ensures m.videoSource == Some("external") && m.kind.None?
  {
    Media(None, Some("external"), None)
  }

  predicate MediaIs(media: Option<Media>, kind: string) {
    media.Some? && media.value.kind == Some(kind)
  }

  predicate VideoFrom(media: Option<Media>, source: string) {
    media.Some? && media.value.videoSource == Some(source)
  }

  // The `hidden` callbacks of the media fields and of the answer fields.
  predicate ImageHidden(media: Option<Media>) { !MediaIs(media, "image") }
  predicate VideoSourceHidden(media: Option<Media>) { !MediaIs(media, "video") }
  predicate VideoUrlHidden(media: Option<Media>) { !MediaIs(media, "video") || !VideoFrom(media, "external") }
  predicate VideoFileHidden(media: Option<Media>) { !MediaIs(media, "video") || !VideoFrom(media, "file") }
  predicate AudioFileHidden(media: Option<Media>) { !MediaIs(media, "audio") }
  predicate OptionsHidden(questionType: Option<string>) { questionType != Some(Radio) }
  predicate CorrectAnswerHidden(questionType: Option<string>) { questionType != Some(TextAnswer) }

  /** At most one media field beside the source choice is ever shown, and the
      video fields only for a video: the kind picks exactly one upload field,
      and the video source picks between address and file. The options and the
      correct answer are never shown together, whatever the question type. */
  lemma AtMostOneMediaFieldShown(media: Option<Media>)
    ensures !ImageHidden(media) ==> VideoSourceHidden(media) && VideoUrlHidden(media) && VideoFileHidden(media) && AudioFileHidden(media)
    ensures !AudioFileHidden(media) ==> ImageHidden(media) && VideoSourceHidden(media) && VideoUrlHidden(media) && VideoFileHidden(media)
    ensures VideoUrlHidden(media) || VideoFileHidden(media)
    ensures !VideoUrlHidden(media) || !VideoFileHidden(media) ==> !VideoSourceHidden(media)
    ensures forall t :: OptionsHidden(t) || CorrectAnswerHidden(t)
    ensures OptionsHidden(Some(Radio)) == false && CorrectAnswerHidden(Some(Radio))
  {
  }

  /** The preview: the question text (or 'Uten tittel'), and 'Flervalg' or
      'Tekstsvar' with, for a radio question that has options, the number of
      options and of correct ones ('riktig' for one, 'riktige' otherwise). */
  function PreviewOf(title: Option<string>, questionType: Option<string>, options: Option<seq<AnswerOption>>): (p: Preview)
    ensures p.title == (if Truthy(title) then title.value else "Uten tittel")
  {
    var kind := if questionType == Some(Radio) then "Flervalg" else "Tekstsvar";
    var subtitle :=
      if questionType == Some(Radio) && options.Some? && |options.value| > 0 then
        var correct := CountCorrect(options.value);
        kind + " • " + NatToString(|options.value|) + " alternativer • " + NatToString(correct)
        + " riktig" + (if correct != 1 then "e" else "")
      else kind;
    Preview(if Truthy(title) then title.value else "Uten tittel", subtitle)
  }

  /** The subtitle of a question's preview starts with its type: 'Flervalg' for a
      radio question, 'Tekstsvar' (alone) for any other. */
  lemma PreviewKind(title: Option<string>, questionType: Option<string>, options: Option<seq<AnswerOption>>)
    ensures var s := PreviewOf(title, questionType, options).subtitle;
      && (questionType == Some(Radio) <==> |s| >= 8 && s[..8] == "Flervalg")
      && (questionType != Some(Radio) ==> s == "Tekstsvar")
      && (questionType == Some(Radio) && (options.None? || options.value == []) ==> s == "Flervalg")
  {
    var s := PreviewOf(title, questionType, options).subtitle;
    if questionType == Some(Radio) {
      if options.Some? && |options.value| > 0 {
        var c := CountCorrect(options.value);
        var tail := " • " + NatToString(|options.value|) + " alternativer • " + NatToString(c)
                    + " riktig" + (if c != 1 then "e" else "");
        assert s == "Flervalg" + tail;
        assert ("Flervalg" + tail)[..8] == "Flervalg";
      }
    } else {
      assert s == "Tekstsvar";
      assert s[..8][0] == 'T';
    }
  }

  /** For a radio question with options, the subtitle gives the number of options
      and of correct ones, with 'riktig' when exactly one is correct and 'riktige'
      otherwise. */
  lemma PreviewCounts(title: Option<string>, options: seq<AnswerOption>)
    requires options != []
    ensures var c := CountCorrect(options);
      PreviewOf(title, Some(Radio), Some(options)).subtitle
        == "Flervalg • " + NatToString(|options|) + " alternativer • " + NatToString(c)
           + (if c == 1 then " riktig" else " riktige")
  {
    var c := CountCorrect(options);
    var n, m := NatToString(|options|), NatToString(c);
    JoinedHead(n, m);
    RiktigSuffix("Flervalg" + " • " + n + " alternativer • " + m, c);
  }

  lemma JoinedHead(n: string, m: string)
    ensures "Flervalg" + " • " + n + " alternativer • " + m == "Flervalg • " + n + " alternativer • " + m
  {
    assert "Flervalg" + " • " == "Flervalg • ";
  }

  lemma RiktigSuffix(head: string, c: int)
    ensures head + " riktig" + (if c != 1 then "e" else "") == head + (if c == 1 then " riktig" else " riktige")
  {
    if c != 1 {
      assert head + " riktig" + "e" == head + (" riktig" + "e");
      assert " riktig" + "e" == " riktige";
    } else {
      assert head + " riktig" + "" == head + " riktig";
    }
  }
}
