/** The decision `nlp_assignment_page` makes from the radio choice, the
    key and the text, and what the page then shows. */
module Page {
  import opened Outcomes
  import opened Strings
  import opened Languages
  import opened Translation
  import opened Summarization

  /** The two options of the action radio button. */
  datatype Action = Summarize | Translate

  /** The operation the page runs for one submission. */
  datatype Plan =
    | Idle
    | SummarizeInput(text: string, apiKey: string)
    | TranslateInput(text: string)

  /** The `if` / `elif` of the page. `summarizedText` is the local set
      before the branches; the Translate branch reads it while it still
      holds the empty string. */
  function PlanAction(action: Action, apiKey: string, userInput: string): Plan {
    var summarizedText := "";
    if action == Summarize && StartsWith(apiKey, "sk-") && userInput != [] then
      SummarizeInput(userInput, apiKey)
    else if action == Translate && StartsWith(apiKey, "sk-") && userInput != [] then
      var textToTranslate := if summarizedText != [] then summarizedText else userInput;
      TranslateInput(textToTranslate)
    else
      Idle
  }

  /** What the page writes under its header after a submission. */
  datatype Shown =
    | NothingShown
    | SummaryShown(summary: Result<string, SummarizeError>)
    | TranslationShown(translation: Result<string, LookupError>)

  /** One submission of the page, with the two drop-down choices, the
      splitter, the summarisation chain and the translation service as
      parameters. */
  function RunPage(action: Action, apiKey: string, userInput: string,
                   sourceChoice: string, targetChoice: string,
                   split: string -> seq<string>, run: (string, seq<Document>) -> string,
                   translate: (Translator, string) -> string): Shown
  {
    match PlanAction(action, apiKey, userInput)
    case Idle => NothingShown
    case SummarizeInput(text, key) => SummaryShown(SummarizeText(text, key, split, run))
    case TranslateInput(text) => TranslationShown(TranslateText(text, sourceChoice, targetChoice, translate))
  }

  /** Nothing runs unless the key starts with "sk-" and the text is
      non-empty; then the radio choice alone picks the one branch that runs,
      and the Summarize branch hands over the text and key unchanged. */
  lemma PlanGuard(action: Action, apiKey: string, userInput: string)
    ensures PlanAction(action, apiKey, userInput) != Idle
      <==> (exists rest :: apiKey == "sk-" + rest) && |userInput| > 0
    ensures PlanAction(action, apiKey, userInput).SummarizeInput?
      <==> action == Summarize && PlanAction(action, apiKey, userInput) != Idle
    ensures PlanAction(action, apiKey, userInput).TranslateInput?
      <==> action == Translate && PlanAction(action, apiKey, userInput) != Idle
    ensures PlanAction(action, apiKey, userInput).SummarizeInput? ==>
      PlanAction(action, apiKey, userInput) == SummarizeInput(userInput, apiKey)
  {
    StartsWithIffPrefix(apiKey, "sk-");
  }

  /** The Translate branch always translates the raw input: nothing
      summarised earlier reaches it. */
  lemma TranslateUsesRawInput(action: Action, apiKey: string, userInput: string)
    ensures PlanAction(action, apiKey, userInput).TranslateInput? ==>
      PlanAction(action, apiKey, userInput).text == userInput
  {
  }

  /** With languages picked from the drop-downs, which offer only the
      table's names, the Translate branch shows a translation and never an
      `IndexError`. */
  lemma PageTranslationSucceeds(apiKey: string, userInput: string,
                                sourceChoice: string, targetChoice: string,
                                split: string -> seq<string>, run: (string, seq<Document>) -> string,
                                translate: (Translator, string) -> string)
    requires sourceChoice in Names(LanguageDict) && targetChoice in Names(LanguageDict)
    requires StartsWith(apiKey, "sk-") && userInput != []
    ensures RunPage(Translate, apiKey, userInput, sourceChoice, targetChoice, split, run, translate)
      == TranslationShown(Success(TranslateText(userInput, sourceChoice, targetChoice, translate).value))
  {
    TranslateFailsIff(userInput, sourceChoice, targetChoice, translate);
  }

  /** Whitespace-only text passes the page's guard, which tests only for
      emptiness, and is then rejected by `summarize_text`. */
  lemma PageWhitespaceInput(apiKey: string, userInput: string,
                            sourceChoice: string, targetChoice: string,
                            split: string -> seq<string>, run: (string, seq<Document>) -> string,
                            translate: (Translator, string) -> string)
    requires StartsWith(apiKey, "sk-") && userInput != []
    requires forall k :: 0 <= k < |userInput| ==> IsSpace(userInput[k])
    ensures RunPage(Summarize, apiKey, userInput, sourceChoice, targetChoice, split, run, translate)
      == SummaryShown(Failure(EmptyInput))
  {
    BlankIffAllSpace(userInput);
  }
}
