# Smart keyboard word completion, modelled in Dafny

This project models the word-completion engine of the SmartKeyboard Android app, the
`PredictViewModel` class. Given the text typed so far (the *seed*), the engine does four things:

- It left-pads the seed with the n-gram library's start character up to `MODEL_ORDER` (5)
  characters.
- It asks the n-gram model for a score for every possible next character.
- It keeps the `nPredictions` best-scoring characters. It does this with a stable
  `sortedByDescending` followed by `take`.
- For each kept character it grows a word greedily from `seed + character`. It asks the model
  for the single best next character until the text ends in a space. It then returns the last
  space-delimited token of the trimmed text.

The n-gram library is not part of this model. `NGramModel` stands for the library. It holds the
start character and the library's two queries as function values, with the language model and
`MODEL_ORDER` already fixed:

- `generateCandidates` returns the candidate map as its entry list, in iteration order;
- `generateNextChar` returns the single best next character.

Files:

- `wrappers.dfy`: the `Option` and `Result` types.
- `text.dfy` (module `KotlinText`): the Kotlin string operations the engine uses, which are
  `repeat`, `endsWith`, `trimEnd` with Kotlin's whitespace set, `split` on one character with
  its inverse `Join`, and `takeLast`.
- `ranking.dfy` (module `Ranking`): candidate entries, the stable descending sort, `take`, top-K
  selection, and the link between an entry list and the map it enumerates.
- `prediction.dfy` (module `Prediction`): padding, the capped `buildWord` loop, token extraction,
  the whole request as the function `Predictions`, and the class `PredictViewModel` with its
  `prediction` field.

In the source, `buildWord` loops until the model emits a space, with no bound. The model gives
each branch an extension cap, `fuel`:

- A branch that does not reach a space within the cap makes the request fail with
  `RunawayExtension`.
- `ExtendSound` and `ExtendComplete` show that the cap never changes an answer, only whether
  one is given.
- `PredictionsFuelMonotone` shows that raising the cap keeps every answer a lower cap gave.

A negative `nPredictions` makes Kotlin's `take` throw. The model returns
`NegativePredictionCount` in that case and leaves the `prediction` field unchanged.

Three details of the code that a reader might expect otherwise:

- The only word separator is `' '`. There is no configurable separator set.
- The loop passes the unpadded text to `generateNextChar`. Padding applies only to the first
  candidate query.
- Every candidate entry the model returns is eligible for selection. No entry is filtered out
  by its score.

## Model

| member | source | states |
|---|---|---|
| KotlinText.EndsWith | app/src/main/java/com/mccorby/smartkeyboard/PredictViewModel.kt:45 | `s.endsWith(suffix)`: the last \|suffix\| characters of s are suffix; it is the loop's exit test, whose effect `ExtendSound` and `TerminatedHistoryUnchanged` state |
| KotlinText.IsWhitespace | app/src/main/java/com/mccorby/smartkeyboard/PredictViewModel.kt:49 | the whitespace set of Kotlin's `Char.isWhitespace()` on the JVM, by code point; `TrimEnd` and `TrimEndTrailingWhitespace` state what trimming with it removes |
| KotlinText.Repeat | app/src/main/java/com/mccorby/smartkeyboard/PredictViewModel.kt:33 | `repeat(n)` of the start character gives exactly n characters, each the start character |
| KotlinText.TrimEnd | app/src/main/java/com/mccorby/smartkeyboard/PredictViewModel.kt:49 | `trimEnd()` gives a prefix of the text that does not end in whitespace, and everything it drops is whitespace |
| KotlinText.TrimEndTrailingWhitespace | app/src/main/java/com/mccorby/smartkeyboard/PredictViewModel.kt:49 | trimming text that ends in a non-whitespace character followed only by whitespace gives back exactly that text |
| KotlinText.Split | app/src/main/java/com/mccorby/smartkeyboard/PredictViewModel.kt:49 | `split(" ")` always gives at least one piece, and no piece contains the delimiter |
| KotlinText.SplitLastPiece | app/src/main/java/com/mccorby/smartkeyboard/PredictViewModel.kt:49 | the last piece of a split is a suffix of the text, and it is either the whole text or it follows a delimiter |
| KotlinText.JoinSplit | app/src/main/java/com/mccorby/smartkeyboard/PredictViewModel.kt:49 | joining the pieces of a split with the delimiter gives back the text |
| KotlinText.SplitJoin | app/src/main/java/com/mccorby/smartkeyboard/PredictViewModel.kt:49 | splitting a join of delimiter-free pieces gives back the pieces |
| KotlinText.TakeLast | app/src/main/java/com/mccorby/smartkeyboard/PredictViewModel.kt:49 | `takeLast(n)` gives the last min(n, size) elements |
| Ranking.InsertDescending | app/src/main/java/com/mccorby/smartkeyboard/PredictViewModel.kt:24 | inserting an entry into the sorted list adds exactly one element |
| Ranking.InsertDescendingMultiset | app/src/main/java/com/mccorby/smartkeyboard/PredictViewModel.kt:24 | insertion adds the entry and changes nothing else in the multiset |
| Ranking.InsertDescendingSorted | app/src/main/java/com/mccorby/smartkeyboard/PredictViewModel.kt:24 | insertion into a non-increasing list keeps it non-increasing |
| Ranking.InsertDescendingStable | app/src/main/java/com/mccorby/smartkeyboard/PredictViewModel.kt:24 | the inserted entry goes ahead of the entries with the same score, and the order among the others is kept |
| Ranking.SortedByDescending | app/src/main/java/com/mccorby/smartkeyboard/PredictViewModel.kt:24 | sorting keeps the number of entries |
| Ranking.SortedByDescendingCorrect | app/src/main/java/com/mccorby/smartkeyboard/PredictViewModel.kt:24 | `sortedByDescending { it.value }` is a permutation of the entries in non-increasing score order, and entries with equal scores keep their original order |
| Ranking.StableSortUnique | app/src/main/java/com/mccorby/smartkeyboard/PredictViewModel.kt:24 | any non-increasing arrangement that keeps each equal-score group in its original order is the result of the sort, so the sort is fully determined |
| Ranking.SameScoreClasses | app/src/main/java/com/mccorby/smartkeyboard/PredictViewModel.kt:24 | two non-increasing lists with the same equal-score groups are equal |
| Ranking.Take | app/src/main/java/com/mccorby/smartkeyboard/PredictViewModel.kt:24 | `take(n)` for n >= 0 gives the first min(n, size) elements |
| Ranking.TopKSelection | app/src/main/java/com/mccorby/smartkeyboard/PredictViewModel.kt:24 | the selection has min(nPredictions, number of candidates) entries, in non-increasing score order, all drawn from the candidates, and none scores lower than any candidate left out |
| Ranking.TopK | app/src/main/java/com/mccorby/smartkeyboard/PredictViewModel.kt:24 | `sortedByDescending { it.value }.take(n)`; its properties are stated by `TopKSelection` |
| Ranking.PrefixDominates | app/src/main/java/com/mccorby/smartkeyboard/PredictViewModel.kt:24 | in a non-increasing list, every entry of a prefix scores at least as high as every entry after it |
| Ranking.ScoreMapOfEntries | app/src/main/java/com/mccorby/smartkeyboard/PredictViewModel.kt:32-36 | an entry list with distinct keys is the entry list of a map with exactly that many keys, each mapped to its score |
| Prediction.MODEL_ORDER | app/src/main/java/com/mccorby/smartkeyboard/PredictViewModel.kt:13 | the context length 5 handed to the n-gram model; `InitialHistory` pads to it |
| Prediction.GenerateInitialCandidates | app/src/main/java/com/mccorby/smartkeyboard/PredictViewModel.kt:32-39 | the candidate query on the padded seed; `PredictionsInRankOrder` and `PredictionsOutcome` state what is selected from it |
| Prediction.Extend | app/src/main/java/com/mccorby/smartkeyboard/PredictViewModel.kt:43-47 | the capped `while` loop as a function; `ExtendSound`, `ExtendComplete` and `ExtendFuelMonotone` tie it to the greedy completion |
| Prediction.InitialHistory | app/src/main/java/com/mccorby/smartkeyboard/PredictViewModel.kt:33-34 | the history has length max(MODEL_ORDER, \|seed\|), ends with the seed, and is preceded only by start characters; a seed of MODEL_ORDER or more characters is used unchanged |
| Prediction.ExtendSound | app/src/main/java/com/mccorby/smartkeyboard/PredictViewModel.kt:43-47 | a finished loop only appended characters, each the model's choice for the text before it; it ends in a space and stopped at the first one |
| Prediction.ExtendComplete | app/src/main/java/com/mccorby/smartkeyboard/PredictViewModel.kt:43-47 | a greedy completion reachable within the cap is exactly what the loop produces |
| Prediction.ExtendFuelMonotone | app/src/main/java/com/mccorby/smartkeyboard/PredictViewModel.kt:45 | raising the extension cap keeps any answer already given |
| Prediction.TerminatedHistoryUnchanged | app/src/main/java/com/mccorby/smartkeyboard/PredictViewModel.kt:45 | a history that already ends in a space comes out of the loop with nothing appended; it is its own greedy completion and the only one |
| Prediction.LastToken | app/src/main/java/com/mccorby/smartkeyboard/PredictViewModel.kt:48-49 | the extracted token contains no space; it is a suffix of the trimmed text, and it is either all of it or follows a space |
| Prediction.TokenExtraction | app/src/main/java/com/mccorby/smartkeyboard/PredictViewModel.kt:48-49 | a space-free word that follows a space or the start of the text, followed only by trailing whitespace, is extracted exactly |
| Prediction.LastTokenOfTwoWords | app/src/main/java/com/mccorby/smartkeyboard/PredictViewModel.kt:48 | a history spanning several words yields its last word: "he hello " gives "hello" |
| Prediction.Word | app/src/main/java/com/mccorby/smartkeyboard/PredictViewModel.kt:42-52 | `buildWord` as a function with the cap; `BuildWord` is proved equal to it, and `ExtendSound` with `LastToken` states its result |
| Prediction.BuildWord | app/src/main/java/com/mccorby/smartkeyboard/PredictViewModel.kt:42-52 | the `while` loop of `buildWord`, capped at fuel iterations, returns the extracted token of the capped extension |
| Prediction.CompletionsCorrect | app/src/main/java/com/mccorby/smartkeyboard/PredictViewModel.kt:27 | words are built for all branches exactly when every branch finishes within the cap, and then the i-th word belongs to the i-th selected candidate |
| Prediction.Completions | app/src/main/java/com/mccorby/smartkeyboard/PredictViewModel.kt:27 | the `map` over the selected candidates; `CompletionsCorrect` states when it succeeds and what each word is |
| Prediction.BuildWords | app/src/main/java/com/mccorby/smartkeyboard/PredictViewModel.kt:27 | the `map { buildWord("$seed${it.key}") }` over the selected candidates, as a loop, gives the completions in rank order |
| Prediction.PredictionsInRankOrder | app/src/main/java/com/mccorby/smartkeyboard/PredictViewModel.kt:22-29 | a completed request gives min(nPredictions, number of candidates) predictions; the i-th is the word grown from the raw seed and the i-th best candidate, and none contains a space |
| Prediction.Predictions | app/src/main/java/com/mccorby/smartkeyboard/PredictViewModel.kt:22-29 | the whole request as a function; `PredictionsInRankOrder`, `PredictionsOutcome`, `PredictionsFuelMonotone` and `ThreePredictionsKept` state its properties |
| Prediction.PredictionsOutcome | app/src/main/java/com/mccorby/smartkeyboard/PredictViewModel.kt:24-27 | a request fails on a negative count exactly when nPredictions < 0, and otherwise fails exactly when some selected branch does not reach a space within the cap |
| Prediction.PredictionsFuelMonotone | app/src/main/java/com/mccorby/smartkeyboard/PredictViewModel.kt:27 | raising the cap does not change the predictions of a request that already completed |
| Prediction.ThreePredictionsKept | app/src/test/kotlin/com/mccorby/smartkeyboard/PredictViewModelTest.kt:13-21 | with nPredictions = 3 and at least three candidates, a completed request gives exactly three predictions |
| Prediction.PredictViewModel.constructor | app/src/main/java/com/mccorby/smartkeyboard/PredictViewModel.kt:15-19 | the view model keeps its language model and prediction count, and nothing is published yet |
| Prediction.PredictViewModel.GetPredictions | app/src/main/java/com/mccorby/smartkeyboard/PredictViewModel.kt:22-29 | `getPredictions` returns `Predictions` of its configuration and publishes the result in `prediction` when it succeeds; a failed request leaves `prediction` unchanged |

## Left out

- The n-gram library (`NGrams`, `StupidBackoffRanking`, `LanguageModel`): its code is not part of
  this model. Its start character and its two queries are the fields of `NGramModel`. Any
  exception those queries throw is not modelled. `NGrams.START_CHAR` is a `String` in the
  source, since `repeat` is defined on strings. `NGramModel.startChar` assumes it is exactly one
  character long, and the padding-length property of `InitialHistory` depends on that.
- The `Float` scores are modelled as `real`. IEEE details, NaN ordering in
  particular, are not modelled.
- Candidate map iteration order: Kotlin's map order is whatever the library returns. The model
  takes the entry list in that order as given, and the stable sort keeps it for equal scores.
- Prediction.BuildWord: the source's loop is unbounded. The model caps it at `fuel` appended
  characters and reports `RunawayExtension` when `fuel` characters have been appended and the text
  still does not end in a space. A branch whose last allowed character is a space succeeds.
  Where the source's loop never reaches a space, the model reports `RunawayExtension` for every
  cap. Where the source reaches a space only after more than `fuel` characters, the model also
  reports `RunawayExtension`, while the source returns a word; a larger cap gives that word
  (`ExtendComplete`).
- Prediction.PredictViewModel.GetPredictions: `MutableLiveData`/`LiveData` become an
  `Option<seq<string>>` field (None for a value never set), and the method returns the result
  rather than the LiveData object. Observers are not modelled.
- The `println` calls are output only and are not modelled.
- Prediction.InitialHistory: characters are modelled as Unicode scalar values, while Kotlin's
  `seed.length` counts UTF-16 code units. The model pads `max(MODEL_ORDER - n, 0)` start
  characters, with n counted in code points. For a seed holding characters outside the Basic
  Multilingual Plane, each of which is two UTF-16 units, it therefore pads up to one more start
  character per such character than the source does. It pads no more than the source once the
  seed has MODEL_ORDER or more code points. Lone surrogates, which a Kotlin `Char` can hold and
  `generateNextChar` could return, are not represented. The same applies to every string
  operation in `KotlinText`.
- KotlinText.IsWhitespace: the JVM's whitespace set is written out for current Unicode. U+180E,
  which older Unicode versions count as a space, is not included.
- The unit test calls `getPredictions()` with no argument, but the parameter has no default.
  `ThreePredictionsKept` states the test's expectation for any seed.
- Idempotence: every operation is a function of its inputs and the model, so repeated requests
  agree by construction. No separate lemma states this.
- Model loading, the input-method service, the keyboard views and the candidate views:
  `SmartKeyboardApp.kt`, `di/PredictModule.kt`, `MainActivity.kt`, `SmartKeyboard.kt`,
  `SmartInputMethodService.kt` and both `CandidateView.kt`. These are asset input/output and
  platform UI code.
