/**
 * `suggest_response`: the reply offered for a classified email. When a
 * language-model client is configured its answer is used, trimmed; when it
 * is not configured, or the call raises, one of two fixed templates is
 * returned, chosen by exact equality of the category with "Produtivo".
 */
module Responses {
  import opened PyText

  /** What one call into an external text service gives back: an exception, or the text of its answer. */
  datatype CallOutcome = Raised | Returned(text: string)

  /**
   * The module-level client: `None` when no API key was set or configuring
   * the client raised; otherwise a generator whose answer depends on the
   * category and the email text, the only inputs of the prompt.
   */
  datatype Generator = Unconfigured | Configured(generate: (string, string) -> CallOutcome)

  const Productive: string := "Produtivo"

  /** The fixed reply for a productive email. */
  const ProductiveTemplate: string :=
    "Ol\U{E1}! Recebemos sua solicita\U{E7}\U{E3}o e nossa equipe ir\U{E1} analisar e retornar o mais breve poss\U{ED}vel. Obrigado."

  /** The fixed reply for every other category. */
  const UnproductiveTemplate: string :=
    "Obrigado pela sua mensagem! No momento nenhuma a\U{E7}\U{E3}o \U{E9} necess\U{E1}ria. Abra\U{E7}os."

  /** The fixed reply for a category: the productive one exactly when the category is the string "Produtivo". */
  function TemplateFor(category: string): (r: string)
    ensures r == ProductiveTemplate || r == UnproductiveTemplate
    ensures r == ProductiveTemplate <==> category == Productive
  {
    if category == Productive then ProductiveTemplate else UnproductiveTemplate
  }

  /** `suggest_response(category, text)` with the client given explicitly. */
  function SuggestResponse(category: string, text: string, gen: Generator): (r: string)
    ensures r != ProductiveTemplate && r != UnproductiveTemplate ==> gen.Configured? && gen.generate(category, text).Returned?
  {
    match gen
    case Unconfigured => TemplateFor(category)
    case Configured(generate) =>
      match generate(category, text)
      case Returned(answer) => Strip(answer)
      case Raised => TemplateFor(category)
  }

  /** The reply is the trimmed answer of a successful call, or else one of exactly two fixed strings. */
  lemma ReplyIsAnswerOrTemplate(category: string, text: string, gen: Generator)
    ensures var r := SuggestResponse(category, text, gen);
      || (gen.Configured? && gen.generate(category, text).Returned? && r == Strip(gen.generate(category, text).text))
      || (!(gen.Configured? && gen.generate(category, text).Returned?) && (r == ProductiveTemplate || r == UnproductiveTemplate))
  {
  }

  /** A call that raises gives the very reply an unconfigured client gives. */
  lemma RaisedCallFallsBackLikeUnconfigured(category: string, text: string, gen: Generator)
    requires gen.Configured? && gen.generate(category, text) == Raised
    ensures SuggestResponse(category, text, gen) == SuggestResponse(category, text, Unconfigured)
  {
  }

  lemma ReturnedAnswerIsStripped(category: string, text: string, gen: Generator)
    requires gen.Configured? && gen.generate(category, text).Returned?
    ensures SuggestResponse(category, text, gen) == Strip(gen.generate(category, text).text)
  {
  }

  /**
   * A successful answer is trimmed: the reply is the answer with its leading
   * and trailing whitespace cut off, so it neither starts nor ends with
   * whitespace.
   */
  lemma AnswerIsTrimmed(category: string, text: string, gen: Generator)
    requires gen.Configured? && gen.generate(category, text).Returned?
    ensures var answer := gen.generate(category, text).text;
      && SuggestResponse(category, text, gen) == Strip(answer)
      && OccursAt(answer, Strip(answer), |answer| - |StripLeft(answer)|)
      && (forall i :: 0 <= i < |answer| - |StripLeft(answer)| ==> IsSpace(answer[i]))
      && (forall i :: |answer| - |StripLeft(answer)| + |Strip(answer)| <= i < |answer| ==> IsSpace(answer[i]))
      && (Strip(answer) != [] ==> !IsSpace(Strip(answer)[0]) && !IsSpace(Strip(answer)[|Strip(answer)| - 1]))
  {
    var answer := gen.generate(category, text).text;
    ReturnedAnswerIsStripped(category, text, gen);
    StripIsWindow(answer);
  }

  /** Without a client, exactly "Produtivo" gets the productive template and anything else the other one. */
  lemma UnconfiguredReplyIsKeyedOnExactCategory(category: string, text: string)
    ensures category == Productive ==> SuggestResponse(category, text, Unconfigured) == ProductiveTemplate
    ensures category != Productive ==> SuggestResponse(category, text, Unconfigured) == UnproductiveTemplate
  {
  }

  /** "Improdutivo", a lower-case "produtivo" and an error label all get the unproductive template. */
  lemma OtherCategoriesGetUnproductiveTemplate(text: string)
    ensures SuggestResponse("Improdutivo", text, Unconfigured) == UnproductiveTemplate
    ensures SuggestResponse("produtivo", text, Unconfigured) == UnproductiveTemplate
    ensures SuggestResponse("Erro", text, Unconfigured) == UnproductiveTemplate
  {
  }
}
