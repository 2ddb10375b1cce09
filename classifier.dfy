/**
 * `classify_email`: empty input short-circuits; otherwise the saved model,
 * when present and working, decides from the cleaned text, and a keyword
 * substring test decides when it is missing or raises. The reply is then
 * suggested from the category and the original text.
 */
module Classifier {
  import opened PyText
  import opened Preprocessor
  import opened Responses

  /** What `pipeline.predict([cleaned])[0]` gives: an exception (while loading or predicting), or a label value. */
  datatype Prediction = PredictRaised | Predicted(value: int)

  /** The model file: absent, or present with the prediction it makes for each cleaned text. */
  datatype ModelFile = Missing | Present(predict: string -> Prediction)

  /** The dictionary `{"categoria": ..., "resposta": ...}`. */
  datatype Classification = Classification(categoria: string, resposta: string)

  const Unproductive: string := "Improdutivo"

  /** The reply given for an empty or whitespace-only email. */
  const InvalidTextReply: string := "Texto vazio ou inv\U{E1}lido."

  /** The keywords of the fallback heuristic, in order, duplicates and accented spellings included. */
  const Keywords: seq<string> := [
    "suporte", "problema", "erro", "status", "atualizacao", "atualiza\U{E7}\U{E3}o",
    "d\U{FA}vida", "duvida", "reuni\U{E3}o", "reuniao", "contrato", "anexo", "urgente",
    "processo", "solicita\U{E7}\U{E3}o", "solicitacao", "chamado", "ajuda", "suporte", "cliente",
    "projeto", "prazo", "entrega", "relat\U{F3}rio", "relatorio", "documento", "pagamento",
    "fatura", "nota fiscal", "orcamento", "or\U{E7}amento", "proposta", "contrato"
  ]

  predicate IsCategory(c: string) {
    c == Productive || c == Unproductive
  }

  /** `any(word in text for word in keywords)`, word by word. */
  predicate AnyContained(text: string, keywords: seq<string>)
    decreases |keywords|
  {
    keywords != [] && (Contains(text, keywords[0]) || AnyContained(text, keywords[1..]))
  }

  /** Some keyword of the list is a substring of the text. */
  lemma {:induction false} AnyContainedIff(text: string, keywords: seq<string>)
    ensures AnyContained(text, keywords) <==> exists i :: 0 <= i < |keywords| && Contains(text, keywords[i])
    decreases |keywords|
  {
    if keywords != [] {
      AnyContainedIff(text, keywords[1..]);
      if exists i :: 0 <= i < |keywords| && Contains(text, keywords[i]) {
        var i :| 0 <= i < |keywords| && Contains(text, keywords[i]);
        if i > 0 {
          assert keywords[1..][i - 1] == keywords[i];
        }
      }
      if AnyContained(text, keywords[1..]) {
        var i :| 0 <= i < |keywords[1..]| && Contains(text, keywords[1..][i]);
        assert keywords[i + 1] == keywords[1..][i];
      }
    }
  }

  /** `_fallback_by_keywords`: "Produtivo" exactly when some keyword is a substring of the cleaned text. */
  function FallbackByKeywords(cleaned: string): (r: string)
    ensures IsCategory(r)
    ensures r == Productive <==> exists i :: 0 <= i < |Keywords| && Contains(cleaned, Keywords[i])
  {
    AnyContainedIff(cleaned, Keywords);
    if AnyContained(cleaned, Keywords) then Productive else Unproductive
  }

  /**
   * The category of a non-empty email: the model's label when it gives one
   * (1 is productive, every other label unproductive), the keyword test when
   * the model file is missing or loading or predicting raises.
   */
  function ModelCategory(cleaned: string, file: ModelFile): (r: string)
    ensures IsCategory(r)
    ensures file.Present? && file.predict(cleaned).Predicted? ==> (r == Productive <==> file.predict(cleaned).value == 1)
    ensures !(file.Present? && file.predict(cleaned).Predicted?) ==> r == FallbackByKeywords(cleaned)
  {
    match file
    case Missing => FallbackByKeywords(cleaned)
    case Present(predict) =>
      match predict(cleaned)
      case Predicted(value) => if value == 1 then Productive else Unproductive
      case PredictRaised => FallbackByKeywords(cleaned)
  }

  /**
   * `classify_email(text)`, with the model file and the reply generator given
   * explicitly. The category is always one of the two; an empty or blank text
   * gets the fixed invalid-text answer; otherwise the category comes from the
   * cleaned text and the reply from the category and the original text.
   */
  function ClassifyEmail(text: string, file: ModelFile, gen: Generator): (r: Classification)
    ensures IsCategory(r.categoria)
    ensures Strip(text) == [] ==> r == Classification(Unproductive, InvalidTextReply)
    ensures Strip(text) != [] ==> r.categoria == ModelCategory(CleanText(text), file)
    ensures Strip(text) != [] ==> r.resposta == SuggestResponse(r.categoria, text, gen)
  {
    if text == [] || Strip(text) == [] then
      Classification(Unproductive, InvalidTextReply)
    else
      var category := ModelCategory(CleanText(text), file);
      Classification(category, SuggestResponse(category, text, gen))
  }

  /** A blank email is answered without consulting the model, the keywords or the generator. */
  lemma BlankEmailConsultsNothing(text: string, file1: ModelFile, file2: ModelFile, gen1: Generator, gen2: Generator)
    requires forall i :: 0 <= i < |text| ==> IsSpace(text[i])
    ensures ClassifyEmail(text, file1, gen1) == ClassifyEmail(text, file2, gen2) == Classification(Unproductive, InvalidTextReply)
  {
    StripEmptyIff(text);
  }

  /** Without a working model the category is the keyword test on the cleaned text. */
  lemma NoPredictionMeansKeywordFallback(text: string, file: ModelFile, gen: Generator)
    requires Strip(text) != []
    requires file.Missing? || (file.Present? && file.predict(CleanText(text)) == PredictRaised)
    ensures ClassifyEmail(text, file, gen).categoria == FallbackByKeywords(CleanText(text))
  {
  }

  // ---------------------------------------------------------------------
  // The keyword test on cleaned text

  predicate IsAsciiWord(k: string) {
    forall j :: 0 <= j < |k| ==> IsAscii(k[j])
  }

  /** The keywords made of ASCII characters only, in order. */
  function AsciiOnly(keywords: seq<string>): (r: seq<string>)
    ensures |r| <= |keywords|
    ensures forall k :: k in r <==> k in keywords && IsAsciiWord(k)
    decreases |keywords|
  {
    if keywords == [] then []
    else if IsAsciiWord(keywords[0]) then [keywords[0]] + AsciiOnly(keywords[1..])
    else AsciiOnly(keywords[1..])
  }

  /**
   * In pure-ASCII text no keyword holding a non-ASCII character occurs, so
   * dropping those keywords changes nothing.
   */
  lemma {:induction false} AsciiTextIgnoresAccentedKeywords(text: string, keywords: seq<string>)
    requires forall i :: 0 <= i < |text| ==> IsAscii(text[i])
    ensures forall k :: k in keywords && !IsAsciiWord(k) ==> !Contains(text, k)
    ensures AnyContained(text, keywords) <==> AnyContained(text, AsciiOnly(keywords))
    decreases |keywords|
  {
    forall k | k in keywords && !IsAsciiWord(k) ensures !Contains(text, k) {
      var j :| 0 <= j < |k| && !IsAscii(k[j]);
      AsciiTextHasNoNonAsciiPart(text, k, j);
    }
    if keywords != [] {
      AsciiTextIgnoresAccentedKeywords(text, keywords[1..]);
      var k := keywords[0];
      if !IsAsciiWord(k) {
        var j :| 0 <= j < |k| && !IsAscii(k[j]);
        AsciiTextHasNoNonAsciiPart(text, k, j);
      }
    }
  }

  /** Cleaned text is pure ASCII. */
  lemma CleanTextIsAscii(text: string)
    ensures forall i :: 0 <= i < |CleanText(text)| ==> IsAscii(CleanText(text)[i])
  {
    var cleaned := CleanText(text);
    CleanTextIsClean(text);
    forall i | 0 <= i < |cleaned| ensures IsAscii(cleaned[i]) {
      assert IsCleanChar(cleaned[i]);
    }
  }

  /**
   * Cleaned text is pure ASCII, so the accented keywords ("atualização",
   * "dúvida", "reunião", ...) can never match it: the fallback is the same
   * test over the ASCII keywords alone.
   */
  lemma FallbackOnCleanTextUsesAsciiKeywords(text: string)
    ensures FallbackByKeywords(CleanText(text)) == Productive <==> AnyContained(CleanText(text), AsciiOnly(Keywords))
  {
    var cleaned := CleanText(text);
    CleanTextIsAscii(text);
    AnyContainedIff(cleaned, Keywords);
    AsciiTextIgnoresAccentedKeywords(cleaned, Keywords);
  }

  /**
   * A keyword holding a non-ASCII character ("atualização", "dúvida",
   * "reunião", "solicitação", "relatório", "orçamento") never occurs in
   * cleaned text.
   */
  lemma AccentedKeywordNeverMatchesCleanText(text: string, k: string, j: nat)
    requires j < |k| && !IsAscii(k[j])
    ensures !Contains(CleanText(text), k)
  {
    CleanTextIsAscii(text);
    AsciiTextHasNoNonAsciiPart(CleanText(text), k, j);
  }

  /** A keyword anywhere in the cleaned text, even inside a longer word, makes it productive. */
  lemma KeywordAnywhereIsProductive(u: string, i: nat, v: string)
    requires i < |Keywords|
    ensures FallbackByKeywords(u + Keywords[i] + v) == Productive
  {
    var s := u + Keywords[i] + v;
    assert s[|u|..|u| + |Keywords[i]|] == Keywords[i];
    ContainsAt(s, Keywords[i], |u|);
  }

  /** Matching is by substring, not by whole word: "erro" matches inside "erroneo". */
  lemma KeywordMatchesInsideWord()
    ensures FallbackByKeywords("erroneo") == Productive
  {
    assert Keywords[2] == "erro";
    KeywordAnywhereIsProductive("", 2, "neo");
    assert "" + "erro" + "neo" == "erroneo";
  }

  /** A character that folds to a letter or digit is not whitespace. */
  lemma FoldsToAlnumIsNotSpace(c: char)
    requires FoldsToAlnum(c)
    ensures !IsSpace(c)
  {
  }

  /** A word of foldable characters is its own trimmed form. */
  lemma FoldableWordIsTrimmed(w: string)
    requires w != [] && forall j :: 0 <= j < |w| ==> FoldsToAlnum(w[j])
    ensures Strip(w) == w
  {
    FoldsToAlnumIsNotSpace(w[0]);
    FoldsToAlnumIsNotSpace(w[|w| - 1]);
  }

  /** Each keyword on its own is productive. */
  lemma KeywordIsProductive(i: nat)
    requires i < |Keywords|
    ensures FallbackByKeywords(Keywords[i]) == Productive
  {
    KeywordAnywhereIsProductive([], i, []);
    assert [] + Keywords[i] + [] == Keywords[i];
  }

  /**
   * With no model file, a one-word email that spells a keyword in any case
   * and with any diacritics ("SUPORTE", "Solicitação") is productive.
   */
  lemma KeywordWordIsProductiveWithoutModel(w: string, i: nat, gen: Generator)
    requires w != [] && forall j :: 0 <= j < |w| ==> FoldsToAlnum(w[j])
    requires i < |Keywords| && Folded(w) == Keywords[i]
    ensures ClassifyEmail(w, Missing, gen).categoria == Productive
  {
    FoldableWordIsTrimmed(w);
    CleanWordIsFolded(w);
    KeywordIsProductive(i);
  }

  /** "AJUDA" with no model file is productive. */
  lemma UpperCaseKeywordExample(gen: Generator)
    ensures ClassifyEmail("AJUDA", Missing, gen).categoria == Productive
  {
    var w := "AJUDA";
    forall j | 0 <= j < |w| ensures FoldsToAlnum(w[j]) && Fold(w[j]) == [LowerChar(w[j])] {
      assert IsAsciiUpper(w[j]);
    }
    assert Folded(w) == "ajuda";
    assert Keywords[17] == "ajuda";
    KeywordWordIsProductiveWithoutModel(w, 17, gen);
  }
}
