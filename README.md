# Critters rule selection, in Dafny

This project models the part of Critters that decides which CSS rules are critical.
Critters parses one `<style>` element's stylesheet and walks it twice:

- The **first pass** (`walkStyleRules` with a `markOnly` predicate) matches each style
  rule's selectors against the document. It marks rules with no matching selector, and
  containers with nothing left, with `$$remove`. It records the matching selectors in
  `$$markedSelectors`. It also collects the loose `criticalFonts` string, the
  `criticalKeyframeNames` list and the `failedSelectors` list.
- The **second pass** (`walkStyleRulesWithReverseMirror`) drops the marked rules and
  applies the recorded selectors. It prunes `@keyframes` rules by the keyframes mode and
  `@font-face` rules by the font string and the font flags. It also emits at most one
  font preload per distinct `src`. When `pruneSource` is on, a second parse of the same
  text is walked alongside as the mirror. The rules taken out of the top level become
  the inverse stylesheet.

Around the two passes sit a few small option rules: the keyframes mode, the two font
flags, the inline-threshold test, and the public-path strip of `getFilename`.

Layout, one module per component:

- `wrappers.dfy` (`Wrappers`): `Option`.
- `css_tree.dfy` (`CssTree`): the rule tree. `$$remove` and `$$markedSelectors` are
  fields of the rule values.
- `split_filter.dfy` (`Partition`): `splitFilter`, and the `Filter` it is compared with.
- `js_text.dfy` (`JsText`): the JavaScript string behaviour the passes rely on. That is
  `trim`, `split(/\s+/)`, `indexOf`, the font-property regex and the `url(...)` regex,
  each written out as the regex engine evaluates it.
- `selectors.dfy` (`Selectors`): the selector predicate of the first pass.
- `css_walk.dfy` (`CssWalk`): the two walkers, `filterSelectors`, `markOnly` and
  `applyMarkedSelectors`.
- `pass1.dfy` (`FirstPass`) and `pass2.dfy` (`SecondPass`): the two iterators of
  `processStyle`, and what each pass computes over a whole tree.
- `options.dfy` (`CrittersOptions`): keyframes mode, font flags, inline threshold and
  the `getFilename` prefix strip.
- `process_style.dfy` (`Critters`): `processStyle` and `checkInlineThreshold`.

Each walker and each iterator is written twice:

- as a specification function (`Walk`, `WalkPaired`, `Classify`, `Judge`, ...), and
- as a method with the source's loops (`WalkStyleRules`, `WalkMirrored`,
  `FirstPassPredicate`, `JudgeRule`, ...), proved equal to that function.

The lemmas then state what the passes promise. Examples: `FirstPassMarks`,
`FirstPassCollects`, `SecondPassWalk`, `CriticalTreeAllowed` and `ReduceSameParse`.

Given, not modelled:

- `document.querySelector` is a parameter of `Selectors.Document`. It answers found, not
  found, or throws with a message.
- The pseudo-class stripping regex of `src/index.js:484` is also a parameter of
  `Selectors.Document`. Only its `:root` exception and the trimming after it are modelled.
- The CSS parser, the serializer and the file writing of `pruneSource` are parameters of
  `Critters.Services`.

Where the description of the system and the code disagree, the model follows the code:

- **Unmatched selectors of a kept rule are lost.** The description expects them in the
  inverse tree. In the code, the first pass walks without a mirror, so `filterSelectors`
  drops them. The second pass never calls `filterSelectors`, so it does not put them back.
  The kept rule ends up in the critical tree with its matching selectors only, and the
  other selectors reach neither tree (`SecondPass.UnmatchedSelectorIsLost`).
- **Nested rejected rules are lost.** The description expects every rejected rule in the
  inverse tree. In the code, `splitFilter` returns only elements of the first list, and
  the mirror's `rules` list is replaced by the rejected rules of the first tree. A
  rejected rule inside a kept `@media` goes to the mirror `@media`, and no stylesheet
  holds that mirror. Only top-level rejections reach the inverse stylesheet
  (`SecondPass.NestedRejectedRuleIsLost`). A rejected top-level container loses its
  contents the same way: its list is walked first, every rule in it goes to the mirror
  container, and the container reaches the inverse stylesheet empty. `@media print
  { .unused {} }` arrives there as `@media print {}`, and with `pruneSource` on,
  `.unused` is in neither stylesheet (`SecondPass.RejectedContainerArrivesEmpty`,
  `Critters.RejectedContainersArriveEmpty`).
- **`@keyframes` frames are not walked.** The description says keyframes children are
  recursed. The parser puts the frames of a `@keyframes` rule in `keyframes`, not in
  `rules`, so no walker enters them.
- **The font flags do not follow their descriptions.** The option descriptions
  (`src/index.js:89-94`) give `preloadFonts` the default `true`, have `fonts: true`
  inline critical `@font-face` rules and preload the fonts, and have `fonts: false` stop
  both. The code (`src/index.js:544-547`) tests `fonts === true || preloadFonts === true`
  and `fonts !== false && inlineFonts === true`, and the constructor sets no default for
  any of the three. So with none of them set nothing is preloaded; `{fonts: true}` inlines
  no `@font-face` rule; and `{fonts: false, preloadFonts: true}` still preloads
  (`CrittersOptions.FontFlagsDisagreeWithDocs`, against the described reading
  `CrittersOptions.DocumentedFontFlags`).
- **A font property is one whose name has `font` as a whole word.** The description
  says a property counts when its name contains `font`. The code's regex
  `/\bfont(-family)?\b/i` needs word boundaries around `font`, so `fontsize` is not a
  font property (`JsText.FamilyGroupIsRedundant`, `JsText.FontPropertyExamples`).
- **Containers emptied by the second pass stay.** After the second pass drops its
  `@keyframes` or `@font-face` rules, a container may be empty. The second-pass iterator
  answers nothing for it, so it is kept.

## Model

| member | source | states |
|---|---|---|
| `Partition.SplitFilter` | dist/critters.js:92-103 | The loop pushes onto `aOut` exactly the elements the predicate accepts and onto `bOut` the others, each in the order of `a` |
| `Partition.SplitFilterPartitions` | dist/critters.js:92-103 | Every element of `a` goes to exactly one side, the accepted side is exactly the elements the predicate accepts, and `\|aOut\|+\|bOut\| = \|a\|` |
| `Partition.SplitFilterPermutes` | dist/critters.js:92-103 | The two outputs together are a permutation of `a`: nothing lost, nothing duplicated |
| `Partition.SecondListPassedThrough` | dist/critters.js:92-103 | The second list only reaches the predicate: a predicate that ignores it gives the same split for any second list |
| `Partition.SplitFilterByElement` | dist/critters.js:92-103 | With a predicate on the element alone, the two outputs are the filter by the predicate and the filter by its negation |
| `CssWalk.WalkStyleRules` | dist/critters.js:62-73 | The recursive filter loop computes the specification walk `Walk`: the same final state and the same kept rules |
| `CssWalk.WalkFiltersByVerdict` | dist/critters.js:62-73 | For any iterator and any tree, with the steps taken in order (each nested list walked before its container is shown), the walk's state is the last step's state, the kept rules are the rules of the steps whose answer is not strictly `false`, and the dropped rules are those of the others, in order |
| `CssWalk.NoAnswerKeepsAll` | dist/critters.js:65-72 | An iterator that never answers `false` (answering `undefined` included) drops no rule |
| `CssWalk.WalkVisitsChildrenFirst` | dist/critters.js:62-73 | A container's own list is walked and rebuilt before the iterator sees the container: the calls come in post-order |
| `CssWalk.WalkWithReverseMirror` | dist/critters.js:75-90 | With a `null` mirror the walk is exactly `walkStyleRules`; with a mirror, a successful walk reassigns the mirror's top-level list |
| `CssWalk.WalkMirrored` | dist/critters.js:75-103 | The `splitFilter` loop whose predicate walks each container's pair of lists first computes `WalkPaired`: accepted rules stay, the rejected rules of the first tree replace the mirror list, or the walk throws on a mismatched mirror |
| `CssWalk.WalkStyleRulesWithReverseMirror` | dist/critters.js:75-90 | The top-level mirrored walk computes `WalkWithReverseMirror` |
| `CssWalk.PairedIsPlain` | dist/critters.js:75-90 | With a compatible mirror and an iterator that does not look at the mirror rule, the paired walk keeps what the plain walk keeps, and the mirror gets what it drops |
| `CssWalk.PairedOkIffCompatible` | dist/critters.js:75-90 | The paired walk throws exactly when the mirror does not line up with the tree (a container without a rule, or a rule without a list, opposite it) |
| `CssWalk.SameShapeCompatible` | dist/critters.js:75-90 | A second parse of the same text, whatever flags either copy carries, lines up as a mirror |
| `CssWalk.FilterSelectors` | dist/critters.js:105-115 | With a mirror rule, the rule keeps the passing selectors and the mirror's selectors become the failing ones, both drawn from the rule's own list; without one, the passing selectors are kept in order |
| `CssWalk.MarkOnly` | dist/critters.js:39-51 | `$$remove` is set iff the predicate answered `false` and is never reset, `$$markedSelectors` holds the predicate-filtered selectors, nothing else of the rule changes, and the wrapper answers nothing |
| `CssWalk.MarkThenApply` | dist/critters.js:39-60 | After `markOnly` a style rule's selectors are those it had before, and applying the marks later gives it the selectors the predicate left |
| `CssWalk.MarkOnlyWalkShape` | dist/critters.js:39-73 | A walk under `markOnly` drops no rule and changes no selector list or shape: only the two flags change |
| `CssWalk.ApplyMarkedSelectors` | dist/critters.js:53-60 | Recorded selectors replace the current ones when present, on the rule and on its `_other` rule; a rule without records is unchanged |
| `CssWalk.ApplyMarkedSelectorsIdempotent` | dist/critters.js:53-60 | Applying the marks twice is applying them once |
| `Selectors.Normalize` | src/index.js:483-485 | `:root` is never altered |
| `Selectors.SelectorOutcome` | src/index.js:486-493 | A selector records at most one failure, and a selector that records one is unmatched |
| `Selectors.MatchSelectors` | src/index.js:480-494 | The filter loop keeps exactly the matching selectors in order and records the failures of the throwing ones in order |
| `Selectors.RootIsNotStripped` | src/index.js:483-489 | `:root` is queried as it is, and matches iff the document finds it |
| `Selectors.EmptySelectorIsNotQueried` | src/index.js:486 | A selector empty after stripping is unmatched, records nothing, and does not depend on the document's answers |
| `Selectors.ThrowingSelector` | src/index.js:488-493 | A query that throws makes the selector unmatched and records exactly one entry: the normalised selector, ` -> ` and the message |
| `Selectors.FailuresAppend` | src/index.js:480-494 | A throwing selector does not stop the others: the filter and the failures over a list are those over its parts, concatenated |
| `Selectors.OneFailurePerThrow` | src/index.js:488-493 | There is one `failedSelectors` entry per throwing selector, no more and no fewer |
| `JsText.TrimIsSlice` | src/index.js:484 | `trim` removes only white space and only at the two ends; its result neither starts nor ends with white space |
| `JsText.AnimationNamesAreWords` | src/index.js:515-519 | The names read from an `animation` value are non-empty runs without white space, and together they are every non-white-space character of the value, in order |
| `JsText.FamilyGroupIsRedundant` | src/index.js:505 | `/\bfont(-family)?\b/i` matches exactly where `font`, in any case, is a whole word: the `-family` group never decides a match |
| `JsText.FontPropertyExamples` | src/index.js:505 | `font-family`, `font-size` and `FONT` are font properties; `fontsize` and `color` are not |
| `JsText.IndexOf` | src/index.js:285 | String `indexOf` (also the `criticalFonts` test of line 591) answers the first position where the text occurs, or -1 when it occurs nowhere |
| `JsText.Utf16LengthBounds` | src/index.js:296 | `length` counts UTF-16 code units: between one and two per character, and one per character exactly when no character lies above U+FFFF |
| `JsText.Utf16LengthExample` | src/index.js:296 | Five U+1F600 characters have `length` 10 |
| `JsText.UrlIsOneLine` | src/index.js:571 | What the `url(...)` regex captures is non-empty and holds no line terminator |
| `JsText.UrlOfQuoted` | src/index.js:571 | `url("u")` and `url('u')` capture `u` when it holds no line break and not the quote |
| `JsText.UrlOfBare` | src/index.js:571 | `url(u)` captures `u` when it has no quote or space at its start, no space at its end, and no `)` or line break |
| `CrittersOptions.FalseKeyframesIsCritical` | src/index.js:450-453 | As written, `keyframes: false` gives mode `'critical'`: the `=== false` test is never reached |
| `CrittersOptions.KeyframesMode` | src/index.js:450-453 | `keyframes: false` gives mode `'none'` |
| `CrittersOptions.KeyframesModeCases` | src/index.js:450-453 | The mode is `'critical'` when unset or empty, `'all'` for `true`, `'none'` for `false`, and any other string as given |
| `CrittersOptions.KeyframesCorrectionIsLocal` | src/index.js:450-453 | The corrected mode differs from the mode as written for the value `false` only |
| `CrittersOptions.FontFlags` | src/index.js:544-547 | `fonts: true` turns preloading on, `fonts: false` turns inlining off, and unset, each flag holds only when its own option is `true` |
| `CrittersOptions.DocumentedFontFlags` | src/index.js:89-94 | As the option descriptions put it: `fonts: true` turns both flags on, `fonts: false` both off; otherwise preloading is on unless `preloadFonts: false`, and inlining needs `inlineFonts: true` |
| `CrittersOptions.FontFlagsDisagreeWithDocs` | src/index.js:544-547 | The code's preloading differs from the description exactly for `fonts: false` with `preloadFonts: true` and when neither option is a boolean; its inlining differs exactly for `fonts: true` without `inlineFonts: true` |
| `CrittersOptions.ThresholdProperties` | src/index.js:293-297 | A zero or negative threshold never inlines a whole sheet; a positive one inlines exactly the sheets shorter than it |
| `CrittersOptions.PathPrefix` | src/index.js:284 | The prefix always ends with `/` |
| `CrittersOptions.PathPrefixExample` | src/index.js:284 | The public path `/static/` gives the prefix `static/` |
| `CrittersOptions.NormalizedPath` | src/index.js:283-289 | The stripped path is a suffix of the `href` |
| `CrittersOptions.NormalizedPathRoundTrip` | src/index.js:283-289 | For a relative path `rel`, the URL `/` + prefix + `rel` strips back to `rel` |
| `CrittersOptions.NormalizedPathRoundTripRelative` | src/index.js:283-289 | The same without the URL's leading `/`, unless the prefix itself begins with `/` |
| `CrittersOptions.NormalizedPathOutside` | src/index.js:283-289 | A path that does not begin with the prefix only loses its leading `/` |
| `FirstPass.DeclUsage` | src/index.js:502-520 | A font property appends `' ' + value` to the font string, an `animation`/`animation-name` property appends its names, and the failures are untouched |
| `FirstPass.ReadAnimationNames` | src/index.js:515-519 | The inner loop collects the trimmed non-empty pieces of the value |
| `FirstPass.CollectUsage` | src/index.js:500-522 | The declaration loop computes `DeclsUsage`, the fold of `DeclUsage` over the declarations |
| `FirstPass.FontValuesCollected` | src/index.js:505-507 | Every font value of a matched rule's declarations is a substring of the font string |
| `FirstPass.AnimationNamesCollected` | src/index.js:510-519 | Every name of an animation declaration of a matched rule is in the keyframe name list |
| `FirstPass.AnimationNamesOnlyFromAnimations` | src/index.js:510-519 | Every name added comes from an `animation` or `animation-name` declaration |
| `FirstPass.StyleUsage` | src/index.js:478-522 | A style rule appends its selector failures, whether or not it matched |
| `FirstPass.Classify` | src/index.js:477-531 | Style rule: filtered to its matching selectors and rejected iff none matches. Font-face: answers nothing. Container: rejected iff every child is marked. Any other rule: kept |
| `FirstPass.FirstPassPredicate` | src/index.js:477-531 | The predicate with its loops computes `Classify` |
| `FirstPass.FirstPassMarks` | src/index.js:475-532 | At every depth, the first pass marks exactly the unmatched style rules and the containers all of whose rules are marked, and records on each style rule its matching selectors |
| `FirstPass.FirstPassKeepsTree` | src/index.js:475-532 | The first pass drops no rule and changes nothing but the two flags |
| `FirstPass.FirstPassCollects` | src/index.js:475-532 | The collected state is the state after the tree's style rules, taken in document order: no other kind of rule feeds it |
| `FirstPass.UsageOverKeepsFonts` | src/index.js:496-507 | Each font value of each matched style rule anywhere in the sheet is in the final font string |
| `FirstPass.UsageOverKeepsNames` | src/index.js:496-519 | Each animation name of each matched style rule is in the final name list |
| `FirstPass.UnmatchedRuleCollectsNothing` | src/index.js:496-498 | A style rule with no matching selector adds no font and no keyframe name |
| `FirstPass.UsageOverFailures` | src/index.js:488-493 | The failed selectors of the pass are those of every style rule, in document order |
| `SecondPass.ReadFontFace` | src/index.js:566-575 | The declaration loop computes `FontFaceInfo` |
| `SecondPass.LastFamilyWins` | src/index.js:572-573 | `family` is the value of the last `font-family` declaration |
| `SecondPass.NoFamily` | src/index.js:566-575 | Without a `font-family` declaration `family` stays unset |
| `SecondPass.LastSrcWins` | src/index.js:569-571 | `src` is what the regex captures from the last `src` declaration, unset when it does not match |
| `SecondPass.NoSrc` | src/index.js:566-575 | Without a `src` declaration `src` stays unset |
| `SecondPass.Judge` | src/index.js:551-597 | A marked rule is rejected first. `@keyframes`: `'none'` rejects, `'all'` keeps, else kept iff its name was collected. `@font-face`: preloads a new `src` when preloading is on, and is kept iff family and src exist, the family is in the font string, and inlining is on |
| `SecondPass.JudgeRule` | src/index.js:551-597 | The iterator with its loops computes `Judge` |
| `SecondPass.SecondPassIgnoresMirror` | src/index.js:551-597 | The iterator never reads the mirror rule |
| `SecondPass.SecondPassWalk` | src/index.js:551-597 | The pass keeps `Prune`, takes out `Dropped`, and preloads the unmarked font-face rules in document order at any depth |
| `SecondPass.PruneSplitsTopLevel` | src/index.js:551-597 | The critical side is the rules the iterator keeps and the inverse side the others, each in order and as the second pass leaves it, so the two sides together hold, as a multiset, every top-level rule once |
| `SecondPass.CriticalTreeAllowed` | src/index.js:551-597 | Every rule left at any depth of the critical tree is unmarked, passes the keyframes and font-face tests, and carries its recorded selectors |
| `SecondPass.NoneDropsAllKeyframes` | src/index.js:558-559 | Mode `'none'` leaves no `@keyframes` rule in the critical tree |
| `SecondPass.NoInlineDropsAllFontFaces` | src/index.js:588-594 | Without font inlining no `@font-face` rule stays in the critical tree |
| `SecondPass.PreloadsOverValid` | src/index.js:577-584 | Each `src` is preloaded at most once, and each link's `href` is its `src` trimmed |
| `SecondPass.NoPreloadWithoutFlag` | src/index.js:577 | Without `shouldPreloadFonts` nothing is preloaded |
| `SecondPass.EverySrcPreloaded` | src/index.js:577-578 | With the flag, every unmarked font-face rule with a `src` gets it preloaded, kept or not |
| `SecondPass.OnlySrcsPreloaded` | src/index.js:577-578 | Every preloaded font is the `src` of an unmarked font-face rule |
| `SecondPass.NestedRejectedRuleIsLost` | dist/critters.js:75-90 | A rejected rule inside a kept `@media` is in neither the critical nor the inverse stylesheet |
| `SecondPass.RejectedContainerArrivesEmpty` | dist/critters.js:75-90 | For any container whose rules are all marked, the second pass leaves it with an empty list; if it is marked itself, it is dropped from the critical side and reaches the inverse side empty |
| `SecondPass.RejectedMediaExample` | dist/critters.js:75-90 | `@media print { .unused {} }` reaches the inverse stylesheet as `@media print {}`, and nothing reaches the critical one |
| `SecondPass.UnmatchedSelectorIsLost` | src/index.js:480-494 | An unmatched selector of a kept rule is in neither stylesheet |
| `CrittersOptions.ThresholdCountsUtf16Units` | src/index.js:293-298 | A sheet of five U+1F600 characters, fewer than 8 characters but of `length` 10, is not inlined whole under a threshold of 8 |
| `Critters.CheckInlineThreshold` | src/index.js:293-308 | The sheet is inlined whole iff the threshold is non-zero and the sheet's `length` in UTF-16 code units is smaller; then `$$reduce` becomes `false` and the link is removed, otherwise nothing changes |
| `Critters.Reduce` | src/index.js:475-597 | Without a mirror the two passes never fail and give no inverse; with one, a successful run gives an inverse |
| `Critters.ReduceSameParse` | src/index.js:463-597 | With the mirror a second parse of the same text, the passes never throw. The critical sheet is `Prune` and the inverse is `Dropped` of the tree as the first pass marks it. The usage is that of the style rules in document order |
| `Critters.PruneSourceKeepsCritical` | src/index.js:464 | `pruneSource` changes nothing that is collected, preloaded or kept: it only adds the inverse stylesheet |
| `Critters.ReductionPartitions` | src/index.js:551-597 | Over the tree as the first pass marks it, the critical stylesheet is the rules the second pass keeps and the inverse one the others, in order, together every top-level rule once; the critical one holds only rules the second pass allows |
| `Critters.RejectedContainersArriveEmpty` | src/index.js:527-529 | For any stylesheet, a top-level container the first pass rejects because every rule in it is rejected reaches the inverse stylesheet as an empty container of the same kind |
| `Critters.DisabledRulesLeave` | src/index.js:450-453 | With the corrected keyframes mode, `keyframes: false` leaves no `@keyframes` rule; `fonts: false` leaves no `@font-face` rule in the critical stylesheet |
| `Critters.ReduceAsWritten` | src/index.js:450-453 | The two passes with the keyframes mode as written: without a mirror they never fail and give no inverse |
| `Critters.ReduceAsWrittenIgnoresFalse` | src/index.js:450-453 | As written, `keyframes: false` reduces exactly as an unset `keyframes`, and every other value as with the corrected mode |
| `Critters.FalseKeyframesKeepsUsedKeyframes` | src/index.js:450-453 | As written, `keyframes: false` still inlines a used `@keyframes` rule, which the corrected mode drops |
| `Critters.PreloadsOnlyWhenAsked` | src/index.js:544-585 | Each font is preloaded once, with its `src` trimmed, and only when `fonts` or `preloadFonts` is `true` |
| `Critters.EndToEndExample` | src/index.js:443-597 | `body`, `.unused`, `@keyframes spin` and `.spinner{animation:spin 1s}`, matched against a document without `.unused`: the critical sheet is `body`, `spin` and `.spinner`, and the inverse is `.unused` alone |
| `Critters.MatchedRulesAndUsedKeyframesKept` | src/index.js:496-562 | In mode `'critical'`, fully matched rules stay, an unmatched rule goes to the inverse, and a `@keyframes` rule named by a matched rule's `animation` stays |
| `Critters.ProcessSheetOutcome` | src/index.js:455-631 | An empty sheet is skipped. A reduced sheet is non-empty and trimmed. Only `pruneSource` can inline a sheet completely |
| `Critters.PruneSourceKeepsSheet` | src/index.js:599-631 | Whether `pruneSource` is on changes neither the critical sheet text nor whether the element is removed |
| `Critters.ProcessStyle` | src/index.js:443-631 | `$$reduce === false` or an empty sheet leaves everything alone. Otherwise the preload links go into `<head>`, an emptied element is removed, and the element's text becomes the critical sheet unless `pruneSource` inlined it completely |

## Findings

| source | as written | input that shows it | evidently intended | confidence | as-written member | corrected member |
|---|---|---|---|---|---|---|
| src/index.js:450-453 | `options.keyframes \|\| 'critical'` turns `false` into `'critical'` before `if (keyframesMode === false)` can see it | `keyframes: false`: mode `'critical'`, so used `@keyframes` rules are still inlined | `false` means `'none'`, as the `=== false` line and the boolean shorthand say | high (not executed) | `Critters.FalseKeyframesKeepsUsedKeyframes` | `CrittersOptions.KeyframesModeCases` |

The same test is in `dist/critters.js:375-379`. `CrittersOptions.FalseKeyframesIsCritical`
shows the mode as written, and `Critters.ReduceAsWritten` runs the two passes with it;
`Critters.ReduceAsWrittenIgnoresFalse` proves that, as written, `keyframes: false` reduces
exactly as an unset option. The rest of the model uses the corrected
`CrittersOptions.KeyframesMode`.

## Left out

- CSS text parsing and serialization (`css.parse`, `css.stringify`) and the cssnano /
  postcss compression step: foreign libraries. The trees are given, and the serializer
  is a parameter.
- `document.querySelector`: an uninterpreted oracle that may throw.
- The pseudo-class stripping regex of `src/index.js:484`: an abstract function of the
  document. Only the `:root` exception and the `trim` after it are modelled.
- In-place mutation and aliasing of rule objects: rules are values here. The walkers
  return the new lists instead of reassigning `node.rules` / `node2.rules`. The `_other`
  link and `filterSelectors` are passed to the iterator instead of being stored on the
  rule. The mirror rules that the code orphans are absent from the results, which is
  what the code's reachable trees show.
- DOM creation and mutation: `createDocument`, `setNodeText`, building the preload
  `<link>` element (only its `href` is recorded in `Critters.Head`), `style.remove()`
  (a flag), `addNoscript`, and the preload-mode markup of `dist/critters.js`.
- File I/O and promises: `readFile`, `getCssAsset`, `embedLinkedStylesheet`,
  `embedAdditionalStylesheet`, the writing and unlinking in `pruneSource` (its answer is
  a parameter), `process`, `mergeStylesheets`.
- Logging, including the `failedSelectors` summary gated by `logLevel`, `prettyBytes`,
  and the percentage statistics (floating-point division).
- `path.resolve` and `path.relative` in `getFilename`: only the prefix strip is modelled.
- `Critters.CheckInlineThreshold`: `inlineThreshold` is an integer, with `0` for unset,
  rather than an arbitrary JavaScript value.
- `Critters.ProcessStyle`: computes the corrected keyframes mode, so with
  `keyframes: false` it drops every `@keyframes` rule where the code as written keeps
  the used ones; `Critters.ReduceAsWritten` is the reduction the code performs.
- `Critters.DisabledRulesLeave`: its `keyframes: false` half holds for the corrected
  mode only; as written, `Critters.FalseKeyframesKeepsUsedKeyframes` shows a used
  `@keyframes` rule kept.
- String positions and lengths other than `sheet.length` (`indexOf`, `substring`,
  `trim`) count characters rather than UTF-16 code units; every such result is used
  only for an equality test or a slice of the same string, where the two counts agree.
- `Critters.ProcessStyle`: the `<style>` element's text is its `textContent`, as in
  `src/index.js:455`. The older `dist/critters.js` copy joins the element's child text
  nodes with `\n` instead.
- The webpack test harness and the jest configuration: they hold no logic of the core.
