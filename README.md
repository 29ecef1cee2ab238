# ai-workspaces chat backend: citations and prompt composition

This project models, in Dafny, the text-processing core of the chat backend
of ai-workspaces. Two services are covered.

- `AiService` (`backend/src/ai/ai.service.ts`):
  - **Citation extraction** (`extractCitations`) splits each document into
    non-blank paragraphs and the answer into non-blank sentences. For each
    sentence it takes the first paragraph whose word overlap with the
    sentence is above 0.7. That paragraph's snippet (its first 100
    characters, plus `...` when it is longer) is appended to the citations
    unless it is already there.
  - **Word overlap** (`calculateOverlap`) counts the sentence's words,
    repetitions included, that occur in the paragraph, and divides by the
    shorter of the two word lists.
  - **Contextual chat** (`contextualChat`): with no document content it
    fails. Otherwise it puts a system message in front of the conversation:
    a fixed instruction, then the documents joined with `\n\n---\n\n`.
- `OpenaiService` (`backend/src/openai/openai.service.ts`):
  - **Prompt assembly** (`generateChatResponse`): a Portuguese system
    instruction, extended with the documents joined with `\n\n` when there
    are any, followed by the last ten messages of the conversation.

Modules follow the source:

- `AiService` (`aiservice.dfy`) and `OpenaiService` (`openaiservice.dfy`)
  model the two services.
- `ChatTypes` (`chattypes.dfy`) holds the message and response records.
- `JsString` (`jsstring.dfy`) models the JavaScript string and array
  operations the services use: `split` on a string, `split` on a run of
  characters, `trim`, `toLowerCase`, `join` and `slice`.
- `Wrappers` (`wrappers.dfy`) holds `Option` and `Result`.

`extractCitations` builds its list in two nested loops, pushing and stopping
early with `break`. It is modelled by the method `AiService.ExtractCitations`
with the same loops. The method is proved equal to the function
`AiService.Citations`: one optional contribution per sentence, collected
without repeats. The lemmas about the citations are proved on that function.

The prompt compositions and the other text operations are functions. The two
members that call the language model, `AiService.ContextualChat` and
`OpenaiService.GenerateChatResponse`, are methods. Neither the language model nor the
document store is part of this model. The model enters as a function
parameter from the messages to the reply's content. The documents are given
as their contents.

The overlap score is kept as its numerator and denominator
(`AiService.Overlap`), and the threshold `> 0.7` as the integer comparison
`10 * shared > 7 * min`. `AiService.OverlapAboveThreshold` proves this the
same as comparing the exact quotient with 0.7.

For example, take the answer "Cats are mammals. Dogs bark loudly at night."
and the single document "Cats are small mammals that purr.\n\nDogs often bark
loudly, especially at night.". Both paragraphs are cited, in order. Sentence 1
scores 3/3 against paragraph 1, and sentence 2 scores 5/5 against paragraph 2.
`AiService.OverlapAllShared` states the general fact behind this: a sentence
whose words all occur in a paragraph clears the threshold.

## Model

| member | source | states |
|---|---|---|
| AiService.ExtractCitations | backend/src/ai/ai.service.ts:93-125 | The nested loops with early `break` and the pushes guarded by `includes` return exactly the citations specification `Citations`, and the result has no repeated snippet |
| AiService.Citations | backend/src/ai/ai.service.ts:93-125 | The citations of an answer have no repeated snippet, and there are no more of them than non-blank sentences |
| AiService.Collect | backend/src/ai/ai.service.ts:116-118 | Appending a snippet only when not yet present gives a list without repeats, no longer than the contributions, holding exactly the snippets some sentence contributed |
| AiService.CollectOrder | backend/src/ai/ai.service.ts:109-118 | Citations are in the order in which sentences first produced them |
| AiService.CitationsOrder | backend/src/ai/ai.service.ts:109-121 | A snippet is cited exactly when some sentence's first matching paragraph yields it, and citations are ordered by the first sentence that produced each |
| AiService.FirstMatch | backend/src/ai/ai.service.ts:110-112 | The paragraph chosen for a sentence is the earliest, in document-then-paragraph order, that clears the threshold (not the best-scoring one), and none is chosen when no paragraph clears it |
| AiService.Contribution | backend/src/ai/ai.service.ts:110-119 | A sentence contributes nothing exactly when no paragraph clears the threshold; otherwise it contributes the snippet of the earliest paragraph that clears it |
| AiService.Contributions | backend/src/ai/ai.service.ts:109-121 | There is one contribution per sentence |
| AiService.ContributionsAt | backend/src/ai/ai.service.ts:109-121 | Entry `j` of the contributions is what sentence `j` contributes, so the contributions follow sentence order |
| AiService.CitationsAreSnippets | backend/src/ai/ai.service.ts:102-104 | Every citation is the snippet of one of the non-blank paragraphs of the documents, so no citation is longer than 103 characters |
| AiService.Snippet | backend/src/ai/ai.service.ts:114-115 | A paragraph of at most 100 characters is its own snippet; a longer one gives 103 characters, its first 100 and then `...` |
| AiService.CitationsCount | backend/src/ai/ai.service.ts:109-121 | There are no more citations than non-blank sentences nor than non-blank paragraphs |
| AiService.CitationsEmpty | backend/src/ai/ai.service.ts:102-107 | No documents, no non-blank paragraph or no non-blank sentence gives no citation; an empty answer has no sentence |
| AiService.Paragraphs | backend/src/ai/ai.service.ts:102-104 | The paragraphs of all documents are exactly the non-blank paragraphs of some document |
| AiService.ParagraphsSingle | backend/src/ai/ai.service.ts:102-104 | The paragraphs of one document are that document's non-blank `\n\n` pieces |
| AiService.ParagraphsAppend | backend/src/ai/ai.service.ts:102-104 | The paragraphs of a concatenation of document lists are those of the first list followed by those of the second, so paragraphs come in document-then-paragraph order, repetitions included |
| AiService.ParagraphIsPieceOfDocument | backend/src/ai/ai.service.ts:102-104 | A paragraph is exactly a piece of some document between `\n\n` separators whose trimmed length is positive |
| AiService.Sentences | backend/src/ai/ai.service.ts:107 | The sentences are exactly the pieces of the split on runs of `.`, `!` and `?` that are not blank, and none of them holds one of those characters |
| AiService.SentenceIsPieceOfAnswer | backend/src/ai/ai.service.ts:107 | A sentence is exactly a piece of the answer between runs of `.`, `!` and `?` whose trimmed length is positive |
| AiService.CalculateOverlap | backend/src/ai/ai.service.ts:127-138 | The denominator is 0 exactly when one text has no word, and the count is then 0; otherwise the denominator is at most either word count and the count at most the first text's word count |
| AiService.OverlapAboveThreshold | backend/src/ai/ai.service.ts:112 | The integer threshold is the comparison `score > 0.7`, and holds exactly when both texts have words and `10 * shared > 7 * min(|words1|, |words2|)` |
| AiService.Words | backend/src/ai/ai.service.ts:129-130 | The words, put together, are the lower-cased text with every non-word character removed |
| AiService.SharedCount | backend/src/ai/ai.service.ts:134-135 | The shared count is at most the number of words of the first text |
| AiService.SharedCountAppend | backend/src/ai/ai.service.ts:134-135 | The shared count of a concatenation is the sum of the counts of its parts, so each occurrence of a repeated word counts |
| AiService.OverlapZero | backend/src/ai/ai.service.ts:132-137 | The score is 0 exactly when one word list is empty or no word of the first text occurs in the second |
| AiService.OverlapAllShared | backend/src/ai/ai.service.ts:134-137 | When every word of the first text occurs in the second, the score is at least 1 and clears the threshold |
| AiService.OverlapCanExceedOne | backend/src/ai/ai.service.ts:135-137 | Repeated words count each time: "a a" against "a" scores 2, so the score is not bounded by 1 |
| AiService.OverlapIgnoresCase | backend/src/ai/ai.service.ts:129-130 | Lower-casing a text first changes neither its words nor any score |
| AiService.SharedCountExtremes | backend/src/ai/ai.service.ts:135 | The shared count equals the word count exactly when every word is shared, and is 0 exactly when none is |
| AiService.WordsAreWordRuns | backend/src/ai/ai.service.ts:129-130 | Every word is a non-empty run of word characters |
| AiService.ContextualPrompt | backend/src/ai/ai.service.ts:55-70 | Fails with "No document content available" exactly when there is no document; otherwise the context message followed by the whole history, unchanged and unwindowed |
| AiService.ContextMessage | backend/src/ai/ai.service.ts:60-67 | The context message is a system message whose content starts with the fixed instruction |
| AiService.ContextMessageHoldsDocuments | backend/src/ai/ai.service.ts:60-67 | The context message contains every document |
| AiService.AnswerText | backend/src/ai/ai.service.ts:78 | The answer is the reply's content when there is one, and the empty string otherwise |
| AiService.ContextualChat | backend/src/ai/ai.service.ts:46-83 | With no document the result is the error of `ContextualPrompt`, whatever the model would answer. Otherwise the model sees exactly the messages `ContextualPrompt` builds, and its answer (empty when it has no content) comes back with the citations extracted from it |
| OpenaiService.SystemMessage | backend/src/openai/openai.service.ts:18-23 | The system content is exactly the generic instruction when documents are absent or empty, and it always starts with that instruction |
| OpenaiService.SystemMessageHoldsDocuments | backend/src/openai/openai.service.ts:18-23 | The system content contains every document given |
| OpenaiService.FinalMessages | backend/src/openai/openai.service.ts:25-31 | The prompt has `1 + min(|messages|, 10)` messages: the system message, then the last `min(|messages|, 10)` messages in their order |
| OpenaiService.FinalMessagesKeepLatest | backend/src/openai/openai.service.ts:25-31 | A conversation of at most ten messages is passed on whole, and every message after the system one comes from the conversation |
| OpenaiService.GenerateChatResponse | backend/src/openai/openai.service.ts:16-31 | The conditional reassignment of the system message and the array assembly give the model exactly the prompt `FinalMessages` |
| JsString.SplitOn | backend/src/ai/ai.service.ts:103 | `split` on a string gives at least one piece, and the first piece is a prefix of the text |
| JsString.SplitOnLeftmost | backend/src/ai/ai.service.ts:103 | Each cut is at the leftmost occurrence of the separator: none starts inside the first piece, an occurrence follows it when there are more pieces, the rest is the split of the text after that occurrence, and a single piece is the whole text |
| JsString.JoinSplitOn | backend/src/ai/ai.service.ts:103 | Joining the pieces of a split with the separator gives back the text |
| JsString.SplitOnPiecesFreeOfSep | backend/src/ai/ai.service.ts:103 | No piece of a split contains the separator |
| JsString.Join | backend/src/ai/ai.service.ts:66 | Joining no strings gives the empty string; otherwise the result starts with the first string |
| JsString.SplitRuns | backend/src/ai/ai.service.ts:107 | Splitting on runs of a character class gives at least one piece, no piece holds a separator, and the first piece is a prefix of the text |
| JsString.SeparatorRuns | backend/src/ai/ai.service.ts:107 | Between consecutive pieces of a split on runs there is one run, a non-empty string of separator characters; a text that starts with a separator has at least one |
| JsString.SplitRunsRoundTrip | backend/src/ai/ai.service.ts:107 | Putting the pieces of a split on runs back with the separator runs between them gives the text exactly; together with `SplitRunsInnerPieces`, this fixes where every cut is |
| JsString.SplitRunsInnerPieces | backend/src/ai/ai.service.ts:107 | Every piece except the first and the last is non-empty, and, for a non-empty text, the first piece is empty only when the text starts with a separator |
| JsString.SplitRunsKeepsText | backend/src/ai/ai.service.ts:129-130 | The pieces of a split on runs, put together, are the text with its separator characters removed |
| JsString.NonEmpty | backend/src/ai/ai.service.ts:129-130 | `filter(Boolean)` keeps exactly the non-empty pieces |
| JsString.NonEmptySingle | backend/src/ai/ai.service.ts:130 | On one string, `filter(Boolean)` keeps it exactly when it is not empty |
| JsString.NonEmptyAppend | backend/src/ai/ai.service.ts:130 | On a concatenation, `filter(Boolean)` is the filter of the first part followed by that of the second, so the kept words stay in order, repetitions included |
| JsString.TrimEmptyIffBlank | backend/src/ai/ai.service.ts:103 | `trim()` gives an empty string exactly when every character is white space or a line terminator |
| JsString.NonBlank | backend/src/ai/ai.service.ts:107 | The filter keeps exactly the pieces that are not blank |
| JsString.NonBlankSingle | backend/src/ai/ai.service.ts:103-107 | On one string, the filter keeps it exactly when it is not blank |
| JsString.NonBlankAppend | backend/src/ai/ai.service.ts:103-107 | On a concatenation, the filter is that of the first part followed by that of the second, so sentences and paragraphs stay in input order, repetitions included |
| JsString.Trim | backend/src/ai/ai.service.ts:103 | `trim()` gives the part of the text between a blank prefix and a blank suffix, which neither starts nor ends with white space |
| JsString.TrimStart | backend/src/ai/ai.service.ts:103 | The result is the suffix of the text after its leading white space, and starts with a non-space character when not empty |
| JsString.TrimEnd | backend/src/ai/ai.service.ts:103 | The result is the prefix of the text before its trailing white space, and ends with a non-space character when not empty |
| JsString.ToLower | backend/src/ai/ai.service.ts:129 | `toLowerCase()` keeps the length and lower-cases every character |
| JsString.ToLowerIdempotent | backend/src/ai/ai.service.ts:129 | Lower-casing twice is lower-casing once |
| JsString.JoinContainsEach | backend/src/ai/ai.service.ts:66 | Every joined string occurs in the result of `join` |
| JsString.SliceFrom | backend/src/openai/openai.service.ts:30 | `slice(start)` with a negative start keeps the last `min(|xs|, -start)` entries, otherwise all but the first `start`, always as a suffix of the original |

## Left out

- `personalChat` (backend/src/ai/ai.service.ts:24-44) is a plain forward of the conversation to the model, with no logic of its own.
- The chat completion calls and their settings (model name, temperature, token limits) are foreign network calls. The model is a function parameter that returns the reply's content, present or absent.
- Logging, the `try`/`catch` blocks that rethrow, and the wrapped error of `generateChatResponse` are side effects of the foreign call.
- `getDocumentContentByIds` reads the database. `AiService.ContextualChat` takes the document contents directly.
- The persistence layer, authentication, file upload and PDF extraction, controllers and modules, and the frontend are not part of this model.
- The input messages are never modified: Dafny sequences are values, so this holds without a separate statement.
- JsString.ToLower: lower-cases ASCII letters only. `toLowerCase` also maps non-ASCII upper-case letters; the texts are taken to be ASCII here, where `\W` is also exactly the complement of `[A-Za-z0-9_]`.
- Lengths and indices count Unicode characters, whereas JavaScript counts UTF-16 code units; they differ only outside the Basic Multilingual Plane, which affects the 100-character snippet cut.
- AiService.CalculateOverlap: the score is kept as an exact fraction rather than an IEEE-754 double; the double comparison with 0.7 can differ from the exact one only when the shorter word list has more than about 10^15 words.
- JsString.NonBlank: the paragraph and sentence filters test `trim().length > 0` as "not every character is white space"; `JsString.TrimEmptyIffBlank` proves the two the same.
