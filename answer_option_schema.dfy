/** The answer-option object of the content schema: its field rules, its initial
    value and its preview. */
module AnswerOptionSchema {
  import opened Basics
  import opened Content

  /** The `text` field is required. */
  function TextRule(text: Option<string>): (v: Validation)
    ensures v.Valid? <==> text.Some?
    ensures v.Invalid? ==> v.message == "Svartekst er påkrevd"
  {
    Required(text, "Svartekst er påkrevd")
  }

  /** A new option starts with no text and `isCorrect` false. */
  function InitialOption(): (o: AnswerOption)
    ensures o.isCorrect == Some(false) && o.text.None?
  {
    AnswerOption(None, Some(false))
  }

  /** JavaScript truthiness of `isCorrect`: only an explicit `true` counts. */
  predicate MarkedCorrect(o: AnswerOption) {
    o.isCorrect == Some(true)
  }

  datatype OptionPreview = OptionPreview(title: string, subtitle: string, hasIcon: bool)

  /** The preview: the option's text (or 'Tomt alternativ' for an empty one),
      '✓ Riktig svar' under a correct option, and the check-mark icon beside it. */
  function PreviewOf(o: AnswerOption): (p: OptionPreview)
    ensures p.title == (if Truthy(o.text) then o.text.value else "Tomt alternativ")
    ensures p.subtitle != "" <==> MarkedCorrect(o)
    ensures MarkedCorrect(o) ==> p.subtitle == "✓ Riktig svar"
    ensures p.hasIcon <==> MarkedCorrect(o)
  {
    OptionPreview(
      if Truthy(o.text) then o.text.value else "Tomt alternativ",
      if MarkedCorrect(o) then "✓ Riktig svar" else "",
      MarkedCorrect(o))
  }

  /** The initial option fails validation until its text is entered, and its
      preview shows neither the correct mark nor the icon. */
  lemma InitialOptionNeedsText()
    ensures TextRule(InitialOption().text).Invalid?
    ensures PreviewOf(InitialOption()) == OptionPreview("Tomt alternativ", "", false)
  {
  }
}
