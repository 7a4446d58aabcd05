# Query routing of the Rwanda law chatbot

This project models the decision layer of a chatbot that answers questions
about Rwandan law (`model/intent_handler.py`). It has two parts.

- **Intent classification** (`IntentHandler.classify_intent`). A query is tested
  against three case-insensitive keyword patterns of the form
  `\b(alt1|alt2|...)\b`, in a fixed order: greeting, then closing, then thanks.
  The first family found decides the intent. When none is found, the query is
  a `legal_query`.
- **Response selection** (`enhanced_generate_response`, once the search answer
  is known). Greeting, closing and thanks get fixed replies. For a legal query
  the index returns `(score, row index)` pairs. If the top score is strictly
  below 0.35, the reply is a fixed refusal. Otherwise it is the article text
  of every returned row, in the returned order, joined by a blank line.

Modules:

- `TextChars` (`text_chars.dfy`) holds the character classes of the patterns:
  the ASCII word characters of `\b`, the whitespace of `\s`, and ASCII case
  folding.
- `IntentHandler` (`intent_handler.dfy`) holds the keyword families.
  `Matches(f, text)` is the declarative meaning of `pattern.search(text)`:
  some alternative spans `[p, e)` of the text up to ASCII case, with a word
  boundary at `p` and at `e`. `Search` is a left-to-right scanner, proved
  equal to `Matches` on every text. `Classify` is `classify_intent`.
  Lemmas cover case insensitivity and whole-word matching.
- `LegalChatbot` (`legal_chatbot.dfy`) holds `GenerateResponse`. It also has
  Python's `str.join` with a proved layout (where each part sits and where
  each separator sits), and the lemmas about the threshold and the canned
  replies.
- `IntentExamples` and `ChatbotExamples` hold concrete cases: the empty query,
  "HELLO", "this", "history", the three spellings of thanks, the priority
  between families, and a refused and an accepted three-row answer.

The embedding model and the nearest-neighbour index are outside the model.
Their answer is a parameter `hits: seq<Hit>`. The article table is a
parameter `info: map<int, string>`. Where the source would raise an exception,
`GenerateResponse` returns `Err`. This happens for `scores[0]` on an empty
answer, and for an article lookup on a row index with no article (the first
such index in the returned order). In the source, these exceptions reach the
HTTP layer as a 500 response.

## Model

| member | source | states |
|---|---|---|
| `TextChars.IsWordChar` | model/intent_handler.py:12 | the word characters that `\b` tests: ASCII letters, digits and `_` (the ASCII restriction is listed under "## Left out") |
| `TextChars.IsSpace` | model/intent_handler.py:20 | the characters `\s` matches in a str pattern: exactly those for which `str.isspace` holds |
| `TextChars.FoldChar` | model/intent_handler.py:13 | `re.IGNORECASE` on ASCII: an upper-case letter maps to its lower-case letter, every other character to itself |
| `IntentHandler.WordBoundary` | model/intent_handler.py:12 | `\b` at position `i`: exactly one of `text[i-1]` and `text[i]` is a word character, a position outside the text counting as a non-word character |
| `IntentHandler.Matches` | model/intent_handler.py:25-29 | what `pattern.search(text)` finds: some alternative spans `[p, e)` of the text up to ASCII case, with `\b` at `p` and at `e`; `Search` is proved to decide it |
| `IntentHandler.Search` | model/intent_handler.py:25-29 | `pattern.search(text)` succeeds exactly when some alternative of the family occurs somewhere in the text as a whole word, up to ASCII case (`Matches`), for every text |
| `IntentHandler.SearchFrom` | model/intent_handler.py:25-29 | scanning from position `p` finds a match exactly when some alternative occurs as a whole word starting at `p` or later |
| `IntentHandler.MatchAt` | model/intent_handler.py:11-22 | the pattern `\b(...)\b` matches at `p` exactly when one of its alternatives occurs there, with word boundaries at both ends |
| `IntentHandler.KeywordEnd` | model/intent_handler.py:19-21 | a keyword matched at `p` has at most one end; the result is that end when the keyword matches and `None` otherwise; for `thank\s*you` the greedy run of whitespace gives the only possible end |
| `IntentHandler.SkipSpaces` | model/intent_handler.py:20 | `\s*` consumes the maximal run of whitespace: everything skipped is whitespace and the next character is not |
| `IntentHandler.SpacedEndUnique` | model/intent_handler.py:20 | in `thank\s*you`, `you` can only start where the whitespace run after `thank` ends |
| `IntentHandler.Classify` | model/intent_handler.py:24-32 | greeting iff the greeting pattern matches; closing iff greeting does not and closing does; thanks iff neither of those does and thanks does; legal_query iff none matches |
| `IntentHandler.ClassifyIntent` | model/intent_handler.py:24-32 | the returned label is one of `greeting`, `closing`, `thanks`, `legal_query`: `greeting` iff the greeting pattern matches; `closing` iff it does not and the closing pattern does; `thanks` iff neither of those does and the thanks pattern does; `legal_query` iff none matches |
| `IntentHandler.Label` | model/intent_handler.py:26-32 | each intent's label is one of the four strings the source returns |
| `IntentHandler.LabelInjective` | model/intent_handler.py:26-32 | distinct intents have distinct labels |
| `IntentHandler.MatchesIgnoresCase` | model/intent_handler.py:11-22 | `re.IGNORECASE`: a family matches a text iff it matches any text differing only in ASCII letter case |
| `IntentHandler.ClassifyIgnoresCase` | model/intent_handler.py:11-32 | two texts that differ only in ASCII letter case get the same intent |
| `IntentHandler.ClassifyIgnoresUpperAndLower` | model/intent_handler.py:11-32 | upper-casing or lower-casing a query leaves its intent unchanged |
| `IntentHandler.OccursAtCaseEquivalent` | model/intent_handler.py:11-22 | an occurrence of a keyword at `[p, e)` survives any change of ASCII letter case in the text |
| `IntentHandler.OccurrenceStartsAWord` | model/intent_handler.py:12 | the leading `\b`: a keyword occurrence begins a word of the text, with the keyword's first letter |
| `IntentHandler.OccurrenceEndsAWord` | model/intent_handler.py:12 | the trailing `\b`: a keyword occurrence ends on a word character that no word character follows |
| `IntentHandler.NoInitialNoMatch` | model/intent_handler.py:11-22 | a family is not found in a text when none of its keywords' first letters starts a word of the text |
| `IntentHandler.SingleWordMatchesWhole` | model/intent_handler.py:11-22 | in a text made of one word, a keyword is found only if it spans the whole text |
| `IntentHandler.InitialsOfAlternatives` | model/intent_handler.py:11-22 | every alternative is well formed and begins with one of its family's first letters |
| `IntentHandler.Alternatives` | model/intent_handler.py:11-22 | the alternatives of the greeting (:12), closing (:16) and thanks (:20) patterns, in the listed order and in lower case, with `thanks?` as `thank` and `thanks` and `thank\s*you` as a spaced keyword; every alternative begins and ends with a word character |
| `IntentExamples.EmptyQueryIsLegal` | model/intent_handler.py:31-32 | the empty query is a legal query |
| `IntentExamples.HelloInAnyCase` | model/intent_handler.py:11-14 | "HELLO", "hello" and "HeLLo" are greetings |
| `IntentExamples.ThisHasNoKeyword` | model/intent_handler.py:11-22 | no family matches "this" |
| `IntentExamples.HiInsideThisIsNotGreeting` | model/intent_handler.py:12 | "hi" inside "this" does not make it a greeting: "this" is a legal query |
| `IntentExamples.HistoryHasNoKeyword` | model/intent_handler.py:11-22 | no family matches "history" |
| `IntentExamples.HiStartingHistoryIsNotGreeting` | model/intent_handler.py:12 | "history" is a legal query, although it starts with "hi" |
| `IntentExamples.ThanksIsThanks` | model/intent_handler.py:20 | `thanks?`: "thanks" is thanks |
| `IntentExamples.ThankYouIsThanks` | model/intent_handler.py:20 | "thank you" is thanks |
| `IntentExamples.ThankyouIsThanks` | model/intent_handler.py:20 | `thank\s*you` with no whitespace: "thankyou" is thanks |
| `IntentExamples.HelloThanksHasBoth` | model/intent_handler.py:11-22 | "hello, thanks" matches both the greeting and the thanks family |
| `IntentExamples.GreetingBeatsThanks` | model/intent_handler.py:25-30 | greeting wins over thanks: "hello, thanks" is a greeting |
| `IntentExamples.ByeThanksHasNoGreeting` | model/intent_handler.py:11-14 | "bye, thanks" does not match the greeting family |
| `IntentExamples.ByeThanksHasClosingAndThanks` | model/intent_handler.py:15-22 | "bye, thanks" matches both the closing and the thanks family |
| `IntentExamples.ClosingBeatsThanks` | model/intent_handler.py:27-30 | closing wins over thanks: "bye, thanks" is a closing |
| `LegalChatbot.GenerateResponse` | model/intent_handler.py:65-79 | fixed replies for greeting, closing and thanks; for a legal query: an error on an empty answer, the refusal iff the top score is strictly below 0.35, and otherwise every returned article in order joined by a blank line, or the first missing row index |
| `LegalChatbot.ArticleTexts` | model/intent_handler.py:78 | the list comprehension succeeds iff every row index has an article; it then gives one text per hit, in order; otherwise it fails on the first missing row index |
| `LegalChatbot.Join` | model/intent_handler.py:78 | Python's `sep.join(parts)`: the parts in order with one separator between neighbours; its layout is proved by `JoinLayout` |
| `LegalChatbot.JoinLayout` | model/intent_handler.py:78 | `"\n\n".join`: part `k` sits at its offset (the earlier parts, each followed by one separator), a separator follows every part but the last, and the last part ends the string |
| `LegalChatbot.JoinPartAt` | model/intent_handler.py:78 | in `sep.join(parts)`, part `k` sits at its offset |
| `LegalChatbot.JoinSeparatorAfter` | model/intent_handler.py:78 | in `sep.join(parts)`, a separator follows every part but the last |
| `LegalChatbot.JoinLastPartEnds` | model/intent_handler.py:78 | in `sep.join(parts)`, the last part ends the string |
| `LegalChatbot.CannedReplyIgnoresSearch` | model/intent_handler.py:68-73 | for greeting, closing and thanks the reply succeeds and does not depend on the search answer or the article table |
| `LegalChatbot.OnlyTopScoreIsCompared` | model/intent_handler.py:75-78 | answers with the same row indices whose top scores fall on the same side of the threshold get the same response, whatever the other scores |
| `LegalChatbot.ThresholdIsInclusive` | model/intent_handler.py:49 | a top score of exactly 0.35 returns the joined articles, not the refusal |
| `LegalChatbot.AcceptedResponseLayout` | model/intent_handler.py:76-79 | when the top score clears the threshold and the reply is a text, every returned row index has an article, and the text holds the article of hit `k` at its offset, followed by a blank line unless it is the last, which ends the text |
| `LegalChatbot.AcceptedResponseIsJoin` | model/intent_handler.py:76-79 | when the top score clears the threshold and the reply is a text, every row index has an article and the text is their join by blank lines, in the returned order |
| `LegalChatbot.ArticleAt` | model/intent_handler.py:78-79 | in the joined article texts, the article of hit `k` sits at its offset |
| `LegalChatbot.BlankLineAfter` | model/intent_handler.py:78-79 | in the joined article texts, a blank line follows the article of every hit but the last |
| `LegalChatbot.LastArticleEnds` | model/intent_handler.py:78-79 | the article of the last hit ends the joined article texts |
| `LegalChatbot.FirstMissingUnique` | model/intent_handler.py:78 | the lookup fails on one well-defined row: the first missing index is unique |
| `ChatbotExamples.ThankYouGetsWelcome` | model/intent_handler.py:72-73 | "thank you" gets the thanks reply whatever the search answer |
| `ChatbotExamples.LowTopScoreIsRefused` | model/intent_handler.py:76-77 | a top score of 0.10 is refused even though all three articles exist |
| `ChatbotExamples.HighTopScoreJoinsAll` | model/intent_handler.py:78-79 | a top score of 0.90 returns "A\n\nB\n\nC", although the second and third scores are far below the threshold |
| `ChatbotExamples.EmptyQueryIsSearched` | model/intent_handler.py:74-79 | the empty query is routed to the search: one hit at exactly 0.35 gives its article, an empty answer is an error, and a missing row index is reported |

## Left out

- `embed_text` (model/intent_handler.py:53-58) is a transformer forward pass with floating-point mean pooling. It is a foreign library call.
- `search_articles` and the nearest-neighbour index (model/intent_handler.py:60-63) are third-party search. Their answer is the `hits` parameter, of any length; the source asks for `k=3`. A padding index of `-1` is not treated specially: it is looked up like any other key.
- The constructor (model/intent_handler.py:36-51) loads the tokenizer, model, index and article pickle, and picks a device. This is I/O. Only the threshold 0.35 is kept.
- The article table is modelled as a dictionary from row index to text. If the pickle held a list, a negative index would wrap around; this is not modelled.
- Scores are `real`. The float32 precision of the scores, and how 0.35 is rounded when compared with them, is not modelled.
- `\b` uses the ASCII word characters `[A-Za-z0-9_]`. Python also counts non-ASCII letters and digits as word characters, so next to a non-ASCII letter the model can find a keyword that Python does not.
- `re.IGNORECASE` is modelled as ASCII case folding. Python also folds some non-ASCII characters onto ASCII letters (the Kelvin sign onto `k`, the long s onto `s`); these are not modelled.
- model/main.py (HTTP routes, CORS, request validation, the readiness flag, the conversion of exceptions to HTTP 500) is HTTP glue and is not part of this model.
- api/convert_to_dart.py is a one-shot export of the pickle to JSON, `.npy` and SQLite. It has no decision logic and is not part of this model.
