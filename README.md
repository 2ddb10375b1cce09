# Email triage: a verified model

This project models the core of an email-triage service. The service sorts
incoming emails into "Produtivo" (needs action) and "Improdutivo" (needs no
action), and it suggests a reply. It also runs a small chat assistant, and a
retraining script prepares its corpus. The modelled parts are:

- `clean_text`, the text normaliser (module `Preprocessor`). It lower-cases,
  strips diacritics, turns everything outside `a`-`z`, `0`-`9` and whitespace
  into spaces, collapses whitespace runs and trims.
- `classify_email` and `_fallback_by_keywords` (module `Classifier`). An empty
  email is answered at once. Otherwise the saved model decides, and a keyword
  substring test decides when the model is missing or raises.
- `suggest_response` (module `Responses`). It returns the trimmed answer of a
  language-model client, or one of two fixed templates.
- `chat_with_ai` (module `Chatbot`). It translates the history, makes one call,
  and extends or keeps the history.
- From the retraining script (modules `Anonymizer` and `Dataset`):
  - `anonymize_text`, four ordered `re.sub` passes;
  - the record loop of `load_dataset`;
  - `augment_dataset`.

Python's string primitives are modelled in `PyText`, over strings as
sequences of Unicode scalar values:

- `isspace`/`\s`, `\w`, `\d`;
- `lower`, `strip`, `startswith`;
- `in`.

External services are parameters:

- The saved scikit-learn model is a `ModelFile`: absent, or present with a
  prediction function that may raise.
- Each language-model client is a `Generator` or a `ChatClient`: unconfigured,
  or a function returning `Raised` or the answer text.

The regular expressions of `anonymize_text` are matched by hand, position by
position (`MatchEnd`). `re.sub`'s left-to-right scan (`Scan`) runs over the
table of where a match starting at each position ends. The two loops that
build lists are methods with loop invariants:

- the history translation of `chat_with_ai` (`Chatbot.TranslateHistory`);
- the record loop of `load_dataset` (`Dataset.LoadItems`).

`augment_dataset` is also a method. Each method is proved against a
specification function, and the properties the code promises are proved as
lemmas about those functions.

`clean_text` encodes to ASCII with `errors="ignore"` before it replaces
disallowed characters. So a symbol with no ASCII residue, such as an em dash
or the euro sign, is dropped: the words on either side of it join. It does
not become a space (`Preprocessor.UnmappedSymbolVanishes`).

## Model

| member | source | states |
|---|---|---|
| PyText.IsWordChar | training/retrain.py:33-38 | `\w`: ASCII letters, digits and `_`, and the letters of Latin-1 and Latin Extended-A/B; the properties that use it are stated by the lemmas that follow |
| PyText.Lower | backend/utils/preprocessor.py:9 | `str.lower()` keeps the length and leaves no upper-case ASCII letter |
| PyText.Strip | backend/utils/responses.py:70 | `strip()` never lengthens the text, leaves no whitespace at either end, and leaves text that has none there unchanged |
| PyText.Contains | backend/classifier.py:54 | `part in s`; what it means is stated by `ContainsIff` |
| PyText.LowerChar | backend/utils/preprocessor.py:9 | lower-casing keeps ASCII within ASCII, changes exactly the upper-case ASCII letters, and maps each to the letter 32 code points above |
| PyText.StripIsWindow | backend/utils/responses.py:70 | `strip()` returns the window of its input left after cutting a leading and a trailing whitespace run, and the result neither starts nor ends with whitespace |
| PyText.StripEmptyIff | backend/classifier.py:21 | `text.strip()` is empty exactly when every character of the text is whitespace |
| PyText.ContainsIff | backend/classifier.py:54 | `part in s` holds exactly when `part` occurs at some position of `s` |
| Preprocessor.AsciiResidue | backend/utils/preprocessor.py:12 | the residue of a character after NFKD and `encode('ASCII', 'ignore')` is pure ASCII, and an ASCII character is its own residue |
| Preprocessor.StripAccentsIsAscii | backend/utils/preprocessor.py:12 | after stripping diacritics every character is ASCII |
| Preprocessor.StripAccentsOfAscii | backend/utils/preprocessor.py:12 | pure-ASCII text has nothing to strip |
| Preprocessor.CollapseSpaces | backend/utils/preprocessor.py:18 | collapsing whitespace runs never lengthens the text |
| Preprocessor.CollapseSpacesShape | backend/utils/preprocessor.py:18 | after `re.sub(r"\s+", " ", ...)` the only whitespace left is single plain spaces, never two in a row, and the first character is a space exactly when the input started with whitespace |
| Preprocessor.CollapseKeepsCleanChars | backend/utils/preprocessor.py:15-18 | collapsing text made of `a`-`z`, `0`-`9` and whitespace leaves only `a`-`z`, `0`-`9` and spaces |
| Preprocessor.CollapseKeepsSingleSpaces | backend/utils/preprocessor.py:18 | text whose only whitespace is single plain spaces is left unchanged by the collapse |
| Preprocessor.CleanText | backend/utils/preprocessor.py:4-20 | `clean_text`: an empty input gives `""`, and a non-empty output neither starts nor ends with a space; its full output shape and its idempotence are the two lemmas below |
| Preprocessor.CleanTextIsClean | backend/utils/preprocessor.py:5-18 | an empty input gives `""`; every output holds only `a`-`z`, `0`-`9` and spaces, with no space at either end and never two spaces in a row |
| Preprocessor.StripOfCollapsedIsClean | backend/utils/preprocessor.py:18 | trimming collapsed text of clean characters leaves text with no edge space and no double space |
| Preprocessor.ReplacedOfClean | backend/utils/preprocessor.py:9-15 | lower-casing, diacritic stripping and the replacement of disallowed characters leave clean text alone |
| Preprocessor.CleanTextFixesCleanStrings | backend/utils/preprocessor.py:9-18 | every clean string is a fixed point of `clean_text` |
| Preprocessor.CleanTextIdempotent | backend/utils/preprocessor.py:9-18 | `clean_text(clean_text(x)) == clean_text(x)` for every input |
| Preprocessor.CleanTextOfAsciiIsNoLonger | backend/utils/preprocessor.py:9-18 | on pure-ASCII input the output is never longer than the input |
| Preprocessor.FoldedIsAlnum | backend/utils/preprocessor.py:9-12 | a word of letters and digits, accented or upper-case, folds to exactly one lower-case ASCII letter or digit per character |
| Preprocessor.AccentedLettersFoldToBase | backend/utils/preprocessor.py:9-12 | every accented Latin-1 letter in either case folds to exactly its lower-case base letter, read off the row of the Latin-1 block it sits in: `á`, `à`, `â`, `ã` and `Á` give `a`, `é` and `ê` give `e`, `ç` and `Ç` give `c`, `õ` gives `o`, `ñ` gives `n`, and so on |
| Preprocessor.ReplacedAppend | backend/utils/preprocessor.py:9-15 | the character-level stages work character by character: on two strings joined they give the two results joined |
| Preprocessor.ReplacedFoldable | backend/utils/preprocessor.py:9-15 | a word of foldable characters comes out of the character-level stages as its folded spelling |
| Preprocessor.CollapseAfterWord | backend/utils/preprocessor.py:18 | the collapse passes a whitespace-free prefix through untouched |
| Preprocessor.CollapseRun | backend/utils/preprocessor.py:18 | a whole run of whitespace before a word becomes one space |
| Preprocessor.CollapseJoin | backend/utils/preprocessor.py:18 | two words with a run of whitespace between them collapse to the two words and one space |
| Preprocessor.SeparatorBecomesSpaces | backend/utils/preprocessor.py:15 | a punctuation character becomes a non-empty run of spaces |
| Preprocessor.PunctuationSeparatesWords | backend/utils/preprocessor.py:15-18 | punctuation between two words separates them: `"a,b"` becomes `"a b"`, and in general word, separator, word gives the folded words joined by one space |
| Preprocessor.TrailingPunctuationVanishes | backend/utils/preprocessor.py:15-18 | trailing punctuation disappears: `"Suporte!"` becomes `"suporte"` |
| Preprocessor.UnmappedSymbolVanishes | backend/utils/preprocessor.py:12 | a character with no ASCII residue is dropped as if absent, so its neighbours join |
| Preprocessor.CleanWordIsFolded | backend/utils/preprocessor.py:9-18 | a word of letters and digits, accented or upper-case, comes out as its lower-case base spelling |
| Responses.TemplateFor | backend/utils/responses.py:75-77 | the fixed reply is one of the two templates, and it is the productive one exactly when the category equals `"Produtivo"` |
| Responses.SuggestResponse | backend/utils/responses.py:52-77 | `suggest_response`: a reply that is neither template can only come from a configured client whose call returned |
| Responses.ReplyIsAnswerOrTemplate | backend/utils/responses.py:56-77 | the reply is the trimmed answer of a successful call, or else exactly one of the two fixed templates |
| Responses.RaisedCallFallsBackLikeUnconfigured | backend/utils/responses.py:68-77 | a call that raises gives the very reply an unconfigured client gives |
| Responses.AnswerIsTrimmed | backend/utils/responses.py:69-70 | a successful answer is returned with its leading and trailing whitespace cut off and nothing else changed |
| Responses.UnconfiguredReplyIsKeyedOnExactCategory | backend/utils/responses.py:56-77 | without a client, exactly `"Produtivo"` gets the productive template and any other category the unproductive one |
| Responses.OtherCategoriesGetUnproductiveTemplate | backend/utils/responses.py:77 | `"Improdutivo"`, `"produtivo"` and `"Erro"` get the unproductive template |
| Classifier.AnyContainedIff | backend/classifier.py:54 | `any(word in text for word in keywords)` holds exactly when some keyword of the list is a substring of the text |
| Classifier.FallbackByKeywords | backend/classifier.py:45-56 | the fallback returns one of the two categories, and `"Produtivo"` exactly when some keyword is a substring of the cleaned text |
| Classifier.ModelCategory | backend/classifier.py:27-40 | with a prediction, label 1 gives `"Produtivo"` and every other label `"Improdutivo"`; with no model file, or when loading or predicting raises, the category is the keyword fallback |
| Classifier.ClassifyEmail | backend/classifier.py:20-43 | the category is always one of the two; an empty or blank email gets the fixed invalid-text answer; otherwise the category comes from the cleaned text and the reply is `suggest_response(category, text)` on the original text |
| Classifier.BlankEmailConsultsNothing | backend/classifier.py:21-22 | a whitespace-only email gets the same fixed answer whatever the model file and the reply generator are |
| Classifier.NoPredictionMeansKeywordFallback | backend/classifier.py:27-40 | with no model file, or a model that raises, the category equals `_fallback_by_keywords(clean_text(text))` |
| Classifier.AsciiOnly | backend/classifier.py:46-52 | a keyword is among the ASCII-only keywords exactly when it is in the keyword list and all its characters are ASCII; the list is no longer than the keyword list |
| Classifier.AsciiTextIgnoresAccentedKeywords | backend/classifier.py:54 | on pure-ASCII text, no keyword of the list that holds a non-ASCII character is a substring, so dropping those keywords leaves the `any(...)` test unchanged |
| Classifier.FallbackOnCleanTextUsesAsciiKeywords | backend/classifier.py:46-54 | on cleaned text the fallback equals the same test over the ASCII keywords alone; that each accented keyword never matches is `AccentedKeywordNeverMatchesCleanText` |
| Classifier.AccentedKeywordNeverMatchesCleanText | backend/classifier.py:46-55 | a keyword with a non-ASCII character ("atualização", "dúvida", "reunião", "solicitação", "relatório", "orçamento") is never a substring of a cleaned text |
| Classifier.KeywordAnywhereIsProductive | backend/classifier.py:54-55 | a keyword anywhere in the text, even inside a longer word, makes it productive |
| Classifier.KeywordMatchesInsideWord | backend/classifier.py:54-55 | matching is by substring: "erro" matches inside "erroneo" |
| Classifier.FoldableWordIsTrimmed | backend/classifier.py:21 | a word of letters and digits has no whitespace to trim |
| Classifier.KeywordIsProductive | backend/classifier.py:46-55 | each keyword on its own is productive |
| Classifier.KeywordWordIsProductiveWithoutModel | backend/classifier.py:20-40 | with no model file, a one-word email that spells a keyword in any case and with any diacritics is productive |
| Classifier.UpperCaseKeywordExample | backend/classifier.py:20-40 | with no model file, "AJUDA" is productive |
| Chatbot.Translate | backend/chatbot.py:69-72 | one turn's translation; what it gives is stated by `ClientHistoryOfOneTurn` |
| Chatbot.ClientHistory | backend/chatbot.py:66-72 | the translated history, turn by turn; stated by `ClientHistoryAppend` and `ClientHistoryShape` |
| Chatbot.TranslateHistory | backend/chatbot.py:66-72 | the translation loop builds exactly the turn-by-turn translation of `history or []` |
| Chatbot.UpdatedHistory | backend/chatbot.py:81-84 | the new history is the prior history, unchanged as a prefix, then the user's message, then the assistant's answer: two turns longer |
| Chatbot.ChatWithAi | backend/chatbot.py:54-96 | an unavailable client gives the fixed unavailable reply and `history or []`; a raising call gives the fixed apology and the history unchanged; a successful call gives the answer and the history extended by exactly the two new turns |
| Chatbot.ClientHistoryAppend | backend/chatbot.py:68-72 | translation works turn by turn, so order is preserved: two histories joined translate to the two translations joined |
| Chatbot.ClientHistoryOfOneTurn | backend/chatbot.py:69-72 | a single turn: users stay users, the assistant becomes the model, any other role is dropped, and missing content is `""` |
| Chatbot.ClientHistoryShape | backend/chatbot.py:66-72 | the translation is never longer than the history, and each translated turn is a user or model turn with one part |
| Chatbot.SuccessfulTurnAppendsTwo | backend/chatbot.py:81-89 | after a successful turn the reply is the content of the last turn, the prior history is a prefix, and the new history translates to the old translation plus the two new turns |
| Anonymizer.RunEnd | training/retrain.py:33-38 | the maximal run of a character class from a position ends within the text |
| Anonymizer.LastDot | training/retrain.py:33 | the dot the domain part settles on is a dot followed by a word character, inside the searched span |
| Anonymizer.EmailEnd | training/retrain.py:33 | an e-mail match ends after it starts and within the text |
| Anonymizer.MatchEnd | training/retrain.py:33-38 | a match of any of the four patterns ends after it starts and within the text |
| Anonymizer.MatchesAdvance | training/retrain.py:33-38 | every match in the table of matches ends after it starts and within the text, so the scan makes progress |
| Anonymizer.Scan | training/retrain.py:33-38 | `re.sub`'s left-to-right scan over the table of matches; what it does is stated by the scan lemmas below |
| Anonymizer.Sub | training/retrain.py:33-38 | one `re.sub` pass of a rule; stated by `SubWithoutMatch`, `SubWithOneMatch` and `PlaceholderSurvivesDigitRules` |
| Anonymizer.Anonymize | training/retrain.py:27-39 | `anonymize_text`, the four passes in order; stated by `AnonymizeEmpty`, `AnonymizeDigitRun`, `AnonymizeFormattedCpf` and `AnonymizeEmail` |
| Anonymizer.ScanSkip | training/retrain.py:33-38 | where no match starts, `re.sub` copies the text as it is |
| Anonymizer.SubWithoutMatch | training/retrain.py:33-38 | with no match anywhere, a pass changes nothing |
| Anonymizer.SubWithOneMatch | training/retrain.py:33-38 | with exactly one match, a pass replaces exactly that stretch by the placeholder |
| Anonymizer.DigitRuleStartsAtDigit | training/retrain.py:35-38 | the three digit patterns only match where a digit starts |
| Anonymizer.EmailNeedsAt | training/retrain.py:33 | the e-mail pattern only matches where an '@' follows |
| Anonymizer.NoAtIsUnchangedByEmailRule | training/retrain.py:33 | text without '@' comes through the e-mail pass unchanged |
| Anonymizer.PlaceholdersArePlain | training/retrain.py:33-38 | the placeholders `[EMAIL]`, `[CPF]` and `[NUMERO]` hold no digit and no '@' |
| Anonymizer.PlainIsUnchanged | training/retrain.py:33-38 | text without digits and '@' comes through every pass unchanged |
| Anonymizer.PlaceholderHasNoDigitMatch | training/retrain.py:35-38 | a later digit pattern finds no match inside a placeholder written by an earlier pass |
| Anonymizer.ScanSplits | training/retrain.py:33-38 | when no match before a position runs past it, the scan is the scan of the text up to that position followed by the scan from it |
| Anonymizer.DigitMatchStopsBeforePlaceholder | training/retrain.py:35-38 | a digit match that starts before a placeholder ends at the placeholder's '[' at the latest |
| Anonymizer.PlaceholderInTable | training/retrain.py:35-38 | in a later digit pass, no match before a placeholder runs into it and none starts inside it |
| Anonymizer.ScanAroundWindow | training/retrain.py:33-38 | where a stretch has no match inside it and none running into it, `re.sub` outputs the pass over the text before it, the stretch itself, and the pass over the text after it |
| Anonymizer.PlaceholderSurvivesDigitRules | training/retrain.py:35-38 | a later digit pass keeps a placeholder written by an earlier pass, wherever it sits: the output is the pass over the text before it, the placeholder, and the pass over the text after it |
| Anonymizer.FormattedCpfNeedsTwoRuns | training/retrain.py:35 | a formatted CPF cannot match where the digits form one unbroken run |
| Anonymizer.DigitRuleOnlyAtRunStart | training/retrain.py:36-38 | inside a run of digits there is no `\b`, so the digit patterns can only match at the run's start |
| Anonymizer.CpfDigitsAtRunStart | training/retrain.py:36 | `\b\d{11}\b` matches a run exactly when it has eleven digits and word boundaries on both sides |
| Anonymizer.LongNumberAtRunStart | training/retrain.py:38 | `\b\d{6,}\b` matches the whole run exactly when it has six or more digits and word boundaries on both sides |
| Anonymizer.DigitRuleOnRun | training/retrain.py:36-38 | a digit pass over one run replaces the whole run when its pattern matches there, and changes nothing otherwise |
| Anonymizer.SingleRun | training/retrain.py:36-38 | a run of digits between plain words is the only run, and its edges are boundaries exactly when the neighbouring characters are not word characters |
| Anonymizer.AnonymizeDigitRun | training/retrain.py:27-39 | a standalone run of eleven digits becomes `[CPF]`, not `[NUMERO]`; a standalone run of six or more becomes `[NUMERO]`; a shorter run, or a run next to a letter or underscore, is left as it is |
| Anonymizer.FormattedCpfMatches | training/retrain.py:35 | a standalone `ddd.ddd.ddd-dd` is matched from its first digit to its last |
| Anonymizer.FormattedCpfPass | training/retrain.py:35 | the formatted-CPF pass replaces a standalone formatted CPF by `[CPF]` and changes nothing else |
| Anonymizer.AnonymizeFormattedCpf | training/retrain.py:27-39 | a standalone formatted CPF among plain words becomes `[CPF]`, and the later passes leave the placeholder alone |
| Anonymizer.LastDotIs | training/retrain.py:33 | the domain part is cut at the last dot followed by a word character |
| Anonymizer.ClosingRun | training/retrain.py:33 | the dots and dashes that may follow an address are no word characters |
| Anonymizer.TopLevelDot | training/retrain.py:33 | the dot before the top-level part is the last dot followed by a word character in the e-mail run after the '@', trailing dots and dashes included |
| Anonymizer.EmailLayoutRuns | training/retrain.py:33 | over an address, the local run stops at the '@', the run after the '@' covers the rest of the address and any trailing dots and dashes, and the last part is the whole word after the last dot |
| Anonymizer.EmailMatchFromParts | training/retrain.py:33 | the e-mail pattern matches an address whose local and domain parts may hold dots and dashes (`joao.silva@mail.empresa-x.com`), from the start of its local part to the end of its top-level part, also when a '.' or '-' follows it |
| Anonymizer.AddressLayout | training/retrain.py:33 | an address with no e-mail character before it and only dots and dashes among the e-mail characters after it has its parts at the expected positions |
| Anonymizer.NoEmailMatchAround | training/retrain.py:33 | no e-mail match starts in the text around an address that holds no '@' |
| Anonymizer.EmailOnlyInside | training/retrain.py:33 | the only e-mail matches lie inside the address |
| Anonymizer.EmailPass | training/retrain.py:33 | the e-mail pass replaces an address with dotted or dashed parts by `[EMAIL]` and changes nothing else, a sentence-final '.' after it included |
| Anonymizer.AnonymizeEmail | training/retrain.py:27-39 | an e-mail address with dotted or dashed parts, among words without digits, becomes `[EMAIL]`, digits in the address included |
| Anonymizer.AnonymizeEmpty | training/retrain.py:29-30 | `anonymize_text("")` is `""` |
| Dataset.TextOf | training/retrain.py:56 | the stripped text of a record: no whitespace at either end |
| Dataset.LabelOf | training/retrain.py:57 | the stripped, lower-cased label of a record: no upper-case ASCII letter is left |
| Dataset.KeptTexts | training/retrain.py:55-62 | the anonymized texts of the kept records, in order; stated by `KeptLengths`, `KeptAppend` and `KeptOne` |
| Dataset.KeptLabels | training/retrain.py:55-62 | the binary labels of the kept records, in order; stated by `KeptLengths`, `KeptLabelsAreBinary`, `KeptAppend` and `KeptOne` |
| Dataset.Binary | training/retrain.py:62 | the binary label is 0 or 1, and 1 exactly when the label starts with "prod" |
| Dataset.KeptLengths | training/retrain.py:55-62 | the kept texts and labels have the same length, at most one pair per record |
| Dataset.KeptLabelsAreBinary | training/retrain.py:62 | every kept label is 0 or 1 |
| Dataset.KeptStep | training/retrain.py:55-62 | one more record extends the texts and labels by that record's contribution only |
| Dataset.AnyRaisesIff | training/retrain.py:56-57 | the load raises exactly when some record has a text or label value that is not a string |
| Dataset.LoadItems | training/retrain.py:52-62 | the loop builds exactly the anonymized texts and binary labels of the kept records, in order, or two empty lists when a record's value is not a string |
| Dataset.LoadDataset | training/retrain.py:41-69 | a missing file or a raising record gives two empty lists; otherwise the kept records' texts and labels; the lists always have equal length and every label is 0 or 1 |
| Dataset.AnyRaisesExtends | training/retrain.py:56-57 | one raising record makes the whole load raise |
| Dataset.KeptAppend | training/retrain.py:55-62 | loading works record by record, so input order is kept: two record lists joined load to the two results joined |
| Dataset.KeptOne | training/retrain.py:56-62 | a record is kept, with its anonymized stripped text and its binary label, exactly when both stripped values are non-empty |
| Dataset.BlankItemIsDropped | training/retrain.py:59 | a record whose text is missing or blank is dropped |
| Dataset.BinaryOfRawLabel | training/retrain.py:57-62 | the label is 1 exactly when its stripped value's first four characters lower-case to "prod" |
| Dataset.ProductiveSpellings | training/retrain.py:57-62 | "Produtivo" and "PRODUCTIVE" give 1 |
| Dataset.UnproductiveSpellings | training/retrain.py:57-62 | "Improdutivo" and "nao produtivo" give 0 |
| Dataset.Min | training/retrain.py:77 | `zip` stops at the shorter length |
| Dataset.AugmentDataset | training/retrain.py:71-85 | the output is a copy of the inputs followed by, for each productive pair in order, the text with " Por favor, me retorne." and "Prezados, " plus the text, with two 1 labels |
| Dataset.CountAppend | training/retrain.py:71-85 | counts add up over joined lists |
| Dataset.ExtraShape | training/retrain.py:77-83 | the appended part has two texts and two labels per productive pair, every appended label is 1 |
| Dataset.AugmentedCounts | training/retrain.py:71-85 | the output length is n + 2·#(label 1), the count of 0 labels is unchanged, and the 1 labels gain two per productive pair |
| Dataset.AugmentTriplesProductive | training/retrain.py:71-85 | with lists of equal length, the productive examples triple and both lists stay of equal length |
| Dataset.ExtraOne | training/retrain.py:78-83 | a productive text gains the suffixed and then the prefixed variant, any other text nothing |

## Left out

- HTTP layer, frontend, process bootstrap and the training script: `backend/app.py`, the frontend, `run.py` and `training/train.py`. These are I/O, UI and library plumbing.
- `train_and_evaluate` and `ensure_nltk_data` in `training/retrain.py`. They are scikit-learn fitting, floating-point metrics, NLTK downloads and file writes.
- Reading the JSON file in `load_dataset`. The file's absence and the whole load are the `Option` passed to `Dataset.LoadDataset`. A file that is not valid JSON, or a top-level value that is not a list of dictionaries, is not modelled.
- Dataset.LoadDataset: a record that is not a dictionary, or a JSON value that raises elsewhere than in `.strip()`, is not modelled. Only non-string text and label values raise.
- Logging everywhere.
- Joblib loading and `pipeline.predict`. They are the `ModelFile` oracle: absent, raising, or returning an integer label. The `int(pred)` conversion is folded into that integer.
- Configuring the Gemini clients, the prompt wording, generation parameters and safety settings. Each external call is one abstract outcome: `Generator` for `generate_content`, `ChatClient` for `start_chat` plus `send_message`.
- That `suggest_response` calls the service at most once, with no retry, is structural. The reply is a function of one outcome. It is not a separate lemma.
- That the caller's history is not mutated is structural: histories are values. It is not a separate lemma.
- Chatbot.ChatWithAi: an exception raised while translating the history is not modelled. A turn is a record with optional string role and content, so the translation cannot raise. Only the client call raises.
- PyText.LowerChar: `str.lower()` is modelled for ASCII and Latin-1 only. Other characters are left unchanged.
- Preprocessor.AsciiResidue: full Unicode NFKD is replaced by a table for ASCII, Latin-1 and a few compatibility characters. Any other character has no residue and is dropped.
- PyText.IsWordChar: `\w` is exact only up to U+024F. Any other character counts as a non-word character.
- PyText.IsDigit: `\d` is modelled as the ASCII digits only. Python's `\d` also matches other Unicode decimal digits.
- A general regular-expression engine is not modelled. The four patterns of `anonymize_text` are matched by hand.
- Anonymizer.AnonymizeDigitRun: proved for text whose only digits form the one run, with no '@' anywhere. A text with several numbers is covered pass by pass only, through `PlaceholderSurvivesDigitRules`.
- Anonymizer.FormattedCpfPass: proved for a formatted CPF among words with no other digit and no '@'.
- Anonymizer.AnonymizeFormattedCpf: proved for a formatted CPF among words with no other digit and no '@'.
- Anonymizer.EmailMatchFromParts: the address must open with a word character, and the character before it must not be an e-mail character. A '.' or '-' directly before the local part is not covered.
- Anonymizer.EmailPass: the text around the address must hold no digit and no '@', and the seams are those of `EmailMatchFromParts`.
- Anonymizer.AnonymizeEmail: the text around the address must hold no digit and no '@', and the seams are those of `EmailMatchFromParts`.
- Chatbot.Translate: a "content" or "role" value that is not a string (a number, a list, a dictionary) is not modelled. The code passes such a value to the client as it is; a turn here holds an optional string under each key and cannot express one.
