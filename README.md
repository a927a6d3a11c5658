# inline-math: the expression-extraction engine in Dafny

inline-math is a VS Code extension. It finds the arithmetic in the text of each
selection, or of the cursor's line, and shows the result inline after the text. This
project models the part of it that decides what to show:

- **the candidate generator** (`generateSubselections`). It splits the text on single
  spaces and yields every contiguous run of parts. Longer runs come first; within one
  length, leftmost runs come first.
- **the current engine** (src/evaluate.ts). It normalises the selection text and skips
  texts shorter than three characters. `getResult` then reads one whole-text cache
  entry and carries a single `result` across the candidates. It evaluates only while
  that result is falsy, and writes every success under the whole text. It returns the
  first candidate that passes `isDesirableResult` together with the result held at
  that point.
- **the older engine** (src/evaluateMathExpression.ts). It has a cache keyed by each
  candidate's untrimmed source, and only successes are written to it. The first
  candidate whose cached or fresh value is truthy wins, and there is no filter.
  `getEvaluations` skips a selection with `continue`.
- **the pure string logic of the decorations** (src/decorations.ts). The inline
  message comes from the `$result`/`$source` template, and the source is shortened
  when it is longer than `messageMaxChars`. The CSS settings get a `px` unit when they
  are digits only, the non-empty fragments are joined with `;`, and an empty border
  radius defaults to `border-radius: 0`.

The project is organised as follows:

- **The evaluator.** mathjs `evaluate(...).toString()` is a parameter
  `eval: string -> Option<string>` (module `Types`). `None` stands for a thrown
  evaluation.
- **Truthiness.** JavaScript truthiness of a `string | undefined` is `Types.Truthy`:
  `undefined` and `""` are falsy.
- **The cache.** The `lru-cache` instance is the class `Cache.LruCache`. It has a
  `map<string, string>` field that `Set` updates in place.
- **String primitives.** JavaScript's `split`, `join`, `trim`, `indexOf`/`includes`,
  `replace` with a string pattern, and the normalising regular expression
  `/([\r\n]|  )+(\/\/\s)?/g` are functions in module `Text`. `split`, `join`, `trim`,
  `indexOf` and `replace` have their defining properties proved. For the normalising
  expression, the model proves four things. It never lengthens the text and leaves no
  line break. It leaves a single line unchanged. It joins two single lines around one
  line break with a space. It turns three spaces into two. No lemma covers a `//`
  comment after a break.
- **Imperative parts.** Each loop in the source is a method: the generator, each
  `getResult` and each `getEvaluations`. Each method is proved equal to a recursive
  specification function (`Walk`, `Collect`). The properties are proved about those
  functions.

## Model

| member | source | states |
|---|---|---|
| Generator.GenerateSubselections | src/evaluate.ts:92-100 | the nested size/offset loops yield exactly `Subselections(split(text, ' '))` |
| Generator.Subselections | src/evaluate.ts:92-100 | the candidates `generateSubselections` yields, longest first and leftmost first within a length (the same generator is at src/evaluateMathExpression.ts:6-14); `SubselectionAt`, `SubselectionShape`, `RankOrder` and `SubselectionsCount` state what they are |
| Generator.Level | src/evaluate.ts:96-98 | one size yields parts.length − size + 1 slices |
| Generator.SubselectionsCount | src/evaluate.ts:92-100 | n parts yield n(n+1)/2 candidates |
| Generator.SubselectionAt | src/evaluate.ts:95-98 | every non-empty contiguous slice is yielded, at position Triangle(n − size) + offset |
| Generator.SubselectionShape | src/evaluate.ts:95-98 | every yielded element is a non-empty contiguous slice, at that same position |
| Generator.RankOrder | src/evaluate.ts:95-96 | positions order slices by decreasing length, then by increasing offset |
| Generator.FirstSubselectionIsWhole | src/evaluate.ts:95-97 | the first candidate is all the parts |
| Generator.TriangleClosedForm | src/evaluate.ts:95-96 | the candidate count before a length has the closed form m(m+1)/2 |
| Text.Split | src/evaluate.ts:93 | `split` returns at least one piece, and no piece contains the separator |
| Text.Join | src/evaluate.ts:59 | `join`: the pieces with the separator between them; `JoinSplit`, `SplitJoin` and `JoinSnoc` state what it does |
| Text.JoinSnoc | src/decorations.ts:41 | joining one more piece appends the separator and that piece |
| Text.JoinSplit | src/evaluate.ts:93 | joining the pieces of a split gives back the string |
| Text.SplitJoin | src/decorations.ts:39-41 | splitting a join of separator-free pieces gives back the pieces |
| Text.TrimSpec | src/evaluate.ts:59 | `trim` returns the middle slice, removes only whitespace, and leaves no whitespace at either end |
| Text.Trim | src/evaluate.ts:59 | `trim` as trimStart then trimEnd; `TrimSpec` states what it returns |
| Text.TrimUnchanged | src/evaluate.ts:59 | a string with non-whitespace ends is its own trim |
| Text.StartsWith | src/evaluate.ts:88 | `startsWith`: the string begins with the prefix; used by the filter, whose properties `DesirableMeansNonTrivial` states |
| Text.IndexOfFrom | src/decorations.ts:124 | the index found is the first occurrence at or after the start; none is found only when there is no occurrence |
| Text.Contains | src/decorations.ts:124 | `includes`: `IndexOf` finds an occurrence; by `IndexOfFrom`, exactly when the pattern occurs somewhere |
| Text.ReplaceFirst | src/decorations.ts:118 | replacing a string pattern rewrites only its first occurrence, and leaves a string without it unchanged |
| Text.ReplaceAtFirst | src/decorations.ts:118 | with a known first occurrence, the pattern is found and replaced exactly there |
| Text.MatchLength | src/evaluate.ts:34 | the match at the front of the text never exceeds the text |
| Text.Normalize | src/evaluate.ts:34 | normalisation never lengthens the text and removes every line break |
| Text.NormalizeSingleLine | src/evaluate.ts:34 | a single line without double spaces is left unchanged |
| Text.NormalizeJoinsLines | src/evaluate.ts:34 | two single lines around one line break become one line joined by a space, unless the second starts with `//`; e.g. `3\n* 5` becomes `3 * 5` |
| Text.NormalizeKeepsDoubleSpace | src/evaluate.ts:34 | three spaces become two, so splitting can give an empty token |
| Cache.Lookup | src/evaluate.ts:56 | `get` finds a value exactly for a present key, and the value is the stored one |
| Cache.LruCache.Get | src/evaluate.ts:56 | `get` gives a value exactly for a present key, and it is the stored one |
| Cache.LruCache.constructor | src/evaluate.ts:6-12 | a new cache is empty and has capacity 500 |
| Cache.LruCache.Set | src/evaluate.ts:65 | `set` maps the key to the value and changes nothing else |
| Evaluate.IsDesirableResult | src/evaluate.ts:83-90 | the four conditions of `isDesirableResult`; `DesirableMeansNonTrivial` states them as an iff |
| Evaluate.DesirableMeansNonTrivial | src/evaluate.ts:83-90 | desirable iff there is a result, it differs from the source and from the source's single-quoted inside, and it does not start with `function` |
| Evaluate.DesirabilityExamples | src/evaluate.ts:83-90 | the filter rejects `42`→`42`, `'foo'`→`foo`, a function result and no result, and accepts `2 + 2`→`4` |
| Evaluate.Source | src/evaluate.ts:59 | `subSelection.join(' ').trim()`; `Text.TrimSpec` and `Text.JoinSplit` state what it gives |
| Evaluate.Sources | src/evaluate.ts:58-59 | there is one source per candidate, in generator order |
| Evaluate.Walk | src/evaluate.ts:58-80 | a chosen candidate passes the filter with the held result, and a stored result is present |
| Evaluate.WalkFindsFirstDesirable | src/evaluate.ts:58-80 | getResult returns the first candidate that passes the filter with the result held after it, with that result, and nothing when none passes |
| Evaluate.WalkIdleWhileTruthy | src/evaluate.ts:61 | while the held result is truthy, no evaluation happens and the result is kept |
| Evaluate.WalkStopsEvaluatingOnceTruthy | src/evaluate.ts:61-70 | evaluations go to consecutive candidates, and every call but the last gives no truthy result |
| Evaluate.LastSuccess | src/evaluate.ts:62-65 | the last successful evaluation exists exactly when some evaluation succeeded |
| Evaluate.WalkKeepsLastSuccess | src/evaluate.ts:56-70 | a call ends holding its last successful evaluation, or the cached value when none succeeded, and writes the cache exactly when one succeeded |
| Evaluate.WarmCallMakesNoEvaluation | src/evaluate.ts:56-70 | a truthy whole-text cache entry means no evaluation and no cache change |
| Evaluate.Advance | src/evaluate.ts:61-70 | the `if (!result)` block on the held result: a falsy result is replaced by a successful evaluation, and a truthy one is kept; `WalkIdleWhileTruthy` and `WalkKeepsLastSuccess` state its effect over a whole call |
| Evaluate.ResultRun | src/evaluate.ts:55-81 | `getResult(text)` from a given cache: the cached entry, then `Walk` over the text's candidates; `WarmCallMakesNoEvaluation` and `CarriedResultCounterexample` state its behaviour |
| Evaluate.Consider | src/evaluate.ts:61-70 | the `if (!result)` block replaces only a falsy result, only by a success, and writes it under the whole text |
| Evaluate.GetResult | src/evaluate.ts:55-81 | the method returns the `Walk` hit, makes exactly the `Walk` evaluator calls, and leaves the cache `Walk` describes |
| Evaluate.GetEvaluation | src/evaluate.ts:28-53 | a normalised text shorter than 3 gives nothing; otherwise the getResult hit becomes an evaluation |
| Evaluate.EvaluationFor | src/evaluate.ts:28-53 | what getEvaluation yields and the cache after it; `GetEvaluation` is proved equal to it |
| Evaluate.Collect | src/evaluate.ts:14-26 | what getEvaluations collects, threading the cache; `CollectInSelectionOrder` states its shape |
| Evaluate.GetEvaluations | src/evaluate.ts:14-26 | the loop collects exactly `Collect`: each selection's evaluation in order, threading the cache |
| Evaluate.CollectInSelectionOrder | src/evaluate.ts:14-26 | at most one evaluation per selection, in selection order, each with a result, from a text of at least 3 characters |
| Evaluate.CarriedResultCounterexample | src/evaluate.ts:56-77 | the code as written, with an evaluator of only `5`: text `5 x` reports `x`→`5`, then when warm reports `5 x`→`5`, though neither source evaluates |
| Evaluate.FirstOwnDesirable | src/evaluate.ts:58-77 | the per-candidate rule's hit is the source's own evaluation and passes the filter; no hit means no candidate passes with its own evaluation |
| Evaluate.OwnHit | src/evaluate.ts:55-81 | the per-candidate rule over a whole text reports only a source's own, desirable evaluation |
| Evaluate.CorrectedGetResultIsOwnHit | src/evaluate.ts:55-81 | a whole-text cache of hits that agrees with the rule makes the corrected getResult return the per-candidate hit |
| Evaluate.CorrectedGetResultKeepsAgreement | src/evaluate.ts:65 | the corrected getResult keeps its cache agreeing with the rule |
| Evaluate.CorrectedGetResultIsCacheIndependent | src/evaluate.ts:55-81 | corrected: warm and cold calls agree, a repeat call agrees, and the result is the source's own evaluation |
| EvaluateMathExpression.Source | src/evaluateMathExpression.ts:22 | the untrimmed `subSelection.join(' ')`; `Text.JoinSplit` states what it gives |
| EvaluateMathExpression.TextRun | src/evaluateMathExpression.ts:20-42 | `getResult(text)` from a given cache: `Walk` over the text's candidates; `WarmRepeatSameHit` states its behaviour on a repeat call |
| EvaluateMathExpression.Sources | src/evaluateMathExpression.ts:21-22 | there is one untrimmed source per candidate, in generator order |
| EvaluateMathExpression.Walk | src/evaluateMathExpression.ts:21-39 | the loop of getResult: look up, evaluate on a falsy value, cache a success, return a truthy value; its lemmas follow |
| EvaluateMathExpression.FirstHitIsFirst | src/evaluateMathExpression.ts:20-42 | the cache-free reference finds the first source with a truthy evaluation |
| EvaluateMathExpression.WalkFindsFirstHit | src/evaluateMathExpression.ts:20-42 | with a cache that agrees with the evaluator, getResult picks exactly the cache-free reference's candidate |
| EvaluateMathExpression.WalkCachesExactlySuccesses | src/evaluateMathExpression.ts:27-31 | the cache afterwards holds what it held plus exactly the evaluated sources that succeeded, under their evaluation |
| EvaluateMathExpression.WalkKeepsConsistent | src/evaluateMathExpression.ts:27-31 | a cache that agrees with the evaluator still agrees after a call |
| EvaluateMathExpression.WalkSkipsWarmSources | src/evaluateMathExpression.ts:23-28 | a source cached with a truthy value at the start of a call is never evaluated in it |
| EvaluateMathExpression.WalkStopsAtTruthyEvaluation | src/evaluateMathExpression.ts:32-37 | an evaluation with a truthy outcome ends the call with that source |
| EvaluateMathExpression.WalkCachesHit | src/evaluateMathExpression.ts:27-37 | the chosen source is cached with the chosen result |
| EvaluateMathExpression.WalkHitIsTruthy | src/evaluateMathExpression.ts:32-37 | the chosen result is never empty |
| EvaluateMathExpression.WarmRepeatSameHit | src/evaluateMathExpression.ts:20-42 | a repeat call on the warm cache picks the same candidate, and re-evaluates only sources whose evaluation is falsy or fails |
| EvaluateMathExpression.Attempt | src/evaluateMathExpression.ts:23-31 | one candidate: look up, evaluate only on a falsy value, cache only a success |
| EvaluateMathExpression.GetResult | src/evaluateMathExpression.ts:20-42 | the method returns the `Walk` hit, makes exactly the `Walk` evaluator calls, and leaves the `Walk` cache |
| EvaluateMathExpression.Visit | src/evaluateMathExpression.ts:57-75 | one selection of getEvaluations and the cache after it; `VisitYieldsTruthy` states its result |
| EvaluateMathExpression.Collect | src/evaluateMathExpression.ts:44-78 | what getEvaluations collects, threading the cache; `CollectInSelectionOrder` and `CollectIgnoresCache` state its properties |
| EvaluateMathExpression.VisitYieldsTruthy | src/evaluateMathExpression.ts:57-75 | a recorded evaluation has a truthy result, from a text of at least 3 characters |
| EvaluateMathExpression.CollectInSelectionOrder | src/evaluateMathExpression.ts:44-78 | at most one evaluation per selection, in selection order, each truthy, from a text of at least 3 characters |
| EvaluateMathExpression.CollectIgnoresCache | src/evaluateMathExpression.ts:44-78 | any two caches that agree with the evaluator give the same evaluations |
| EvaluateMathExpression.GetEvaluations | src/evaluateMathExpression.ts:44-78 | the loop with `continue` collects exactly `Collect` |
| Decorations.EvaluationToInlineMessage | src/decorations.ts:104-137 | no message iff the result is null or the limit is 0; the bare `$result` template shows the result itself |
| Decorations.Render | src/decorations.ts:118-133 | the first `$result` replaced, then the first `$source` when the template has one; the lemmas below state the message |
| Decorations.Message | src/decorations.ts:113-135 | the result itself for the bare `$result` template, otherwise `Render` |
| Decorations.ResultShortcutAgrees | src/decorations.ts:113-118 | the `$result` shortcut gives what substitution would give |
| Decorations.ResultSubstitutedOnce | src/decorations.ts:118 | without `$source`, the first `$result` becomes the result and the rest of the template stays |
| Decorations.PlainTemplateShownAsIs | src/decorations.ts:118-135 | a template with neither variable is shown unchanged |
| Decorations.SourceTemplateShowsSource | src/decorations.ts:124-133 | the `$source` template shows the source as shortened |
| Decorations.SourceBeforeResultRendered | src/decorations.ts:118-133 | a template with its first `$source` before its first `$result`, such as `$source = $result`: the shortened source and the result each replace their variable, and all other text is kept |
| Decorations.RenderSourceBeforeResult | src/decorations.ts:118-133 | the same at the level of `Render` |
| Decorations.SourceSurvivesResult | src/decorations.ts:118-132 | replacing a `$result` after the first `$source` keeps that `$source` first |
| Decorations.TruncateSource | src/decorations.ts:125-130 | a source within the limit is shown verbatim; a longer one becomes a prefix of it followed by `...` |
| Decorations.TruncationKeepsLength | src/decorations.ts:128-130 | as written, shortening keeps the length of any source of 3 or more characters |
| Decorations.TruncationExceedsLimit | src/decorations.ts:128-130 | as written, `1234567890` with limit 5 is shown as `1234567...`, longer than 5 |
| Decorations.TruncateSourceTo | src/decorations.ts:128-130 | corrected: a longer source is cut to exactly the limit, as a prefix followed by `...` |
| Decorations.CorrectedInlineMessage | src/decorations.ts:104-137 | corrected message: none iff the result is null or the limit is 0 |
| Decorations.CorrectedSourceMessageFits | src/decorations.ts:124-133 | corrected: the `$source` message never exceeds a positive limit |
| Decorations.OnlyDigits | src/decorations.ts:26 | `/^\d+$/.test`: at least one character, all ASCII digits; `WithPxChangesOnlyDigits` uses it |
| Decorations.WithPx | src/decorations.ts:26-35 | the unit rule; `WithPxChangesOnlyDigits` and `WithPxIdempotent` state it |
| Decorations.WithPxChangesOnlyDigits | src/decorations.ts:26-35 | `px` is appended exactly to digits-only values |
| Decorations.WithPxIdempotent | src/decorations.ts:26-35 | applying the unit rule twice is applying it once |
| Decorations.BorderRadius | src/decorations.ts:37 | `border-radius: ` then the setting, or `0` when it is empty; `AdditionalStylesShape` states the default |
| Decorations.Fragments | src/decorations.ts:27-39 | there are four fragments, and the last one is the border radius |
| Decorations.NonEmpty | src/decorations.ts:40 | the filter never lengthens the list |
| Decorations.NonEmptyAppend | src/decorations.ts:40 | filtering a concatenation filters each side and keeps them in order |
| Decorations.AdditionalStyles | src/decorations.ts:39-41 | the non-empty fragments joined with `;`; `AdditionalStylesShape` states its shape and its split round trip |
| Decorations.NonEmptyKeepsExactlyNonEmpty | src/decorations.ts:40 | the filter keeps exactly the non-empty fragments, and a non-empty last fragment stays last |
| Decorations.AdditionalStylesShape | src/decorations.ts:37-41 | the styles end with the border radius, `border-radius: 0` when unset, and split back on `;` into the non-empty fragments |
| Decorations.AfterPropsFor | src/decorations.ts:44-49 | the `after` options built from the settings; `AfterPropsShape` states them |
| Decorations.AfterPropsShape | src/decorations.ts:44-49 | italic exactly when set; the margin is `0 0 0 ` then the setting, with `px` exactly for digits only; without `;` in the settings the text decoration splits into `none`, the non-empty fragments in order, and `""` |
| Decorations.DeclarationsSplit | src/decorations.ts:48 | `none;` + joined declarations + `;` splits back into `none`, the declarations and `""` |

## Left out

- The VS Code API is not modelled: editors, selections, ranges, documents, decoration
  types, the hover `MarkdownString`, `Decorator` state, and the listeners and
  commands. A selection is given by the raw text of its range. An `Evaluation`
  carries the selection's index instead of its `Range`.
- mathjs is not modelled. `evaluate(...).toString()` is an arbitrary deterministic
  function. A throw, including a `toString` on `undefined`, is `None`.
- LRU eviction is not modelled: the cache never forgets an entry, and the capacity of
  500 is only recorded. Every cache property is therefore stated for a cache that has
  not evicted.
- Cache.LruCache.Get: a hit does not refresh the entry's recency, which only matters
  for eviction.
- The generator is materialised into a sequence before the loop. It has no side
  effects, so its laziness is not observable.
- JavaScript's special `$` patterns in a `replace` replacement string (`$&`, `$$`, …)
  are not modelled. Substitution is plain first-occurrence replacement.
- `setDecorationStyle` is modelled only for the strings it computes. Theme colours,
  the light theme and the decoration type are left out.
- A template with its first `$result` before its first `$source` has no lemma of its
  own. There the `$source` replacement runs on the message after `$result` was
  replaced, so a result that itself contains `$source` would be replaced instead.
- `createDecorationOption`, `updateDecorations` and the hover message are plumbing over
  the VS Code API and are left out.
- Strings are sequences of Unicode scalar values. JavaScript's `length` counts UTF-16
  code units, so lengths differ for characters outside the Basic Multilingual Plane.
  `trim` and `\s` use the ECMAScript WhiteSpace and LineTerminator set.
- Splitting can give empty tokens. The normalising expression turns three spaces into
  two (`Text.NormalizeKeepsDoubleSpace`), and `split(' ')` then yields an empty part.
- Failed evaluations are never cached, and the current engine caches only under the
  whole text. Its filter applies to the held result, not to each candidate's own
  evaluation.

## Findings

| source | as written | input that shows it | evidently intended | confidence | as-written member | corrected member |
|---|---|---|---|---|---|---|
| src/evaluate.ts:56-77 | one `result` is carried across candidates and tested with each later source. A success is cached under the whole text, so a later candidate is reported with a result it did not produce, and a warm call reports a different source than a cold one | text `5 x`, evaluator giving `5` only for `5`: cold `x`→`5`, warm `5 x`→`5`, though neither `x` nor `5 x` evaluates | report the first candidate whose own evaluation passes the filter, and cache that hit under the text | high, not executed | Evaluate.CarriedResultCounterexample | Evaluate.CorrectedGetResultIsCacheIndependent |
| src/decorations.ts:128-130 | a source longer than `messageMaxChars` keeps all but its last three characters and gains `...`, so its length does not change | source `1234567890`, `messageMaxChars` 5: shown `1234567...` (10 characters) | cut the source so that prefix plus `...` fits in `messageMaxChars` (src/types.ts:40-43: "Cut off inline message if it's longer than this value") | medium, not executed | Decorations.TruncationExceedsLimit | Decorations.CorrectedSourceMessageFits |

The engine's methods (`GetResult`, `GetEvaluation`, `GetEvaluations`) and
`EvaluationToInlineMessage` model the code as written. The corrected definitions sit
beside them, with their intended properties proved.
