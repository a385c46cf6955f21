# Models of the repository's scripts

This project models the algorithmic cores of eight maintenance scripts and proves what they are for. Methods carry the
loops, early returns and field updates of the scripts and are proved against specification functions; the lemmas say what
those functions mean, over every input, every run or every interleaving. What a scan, a choice or a protocol step yields is
also told without it: by grammars of what is read, by counts of the characters outside of quotes, by the events that
happened, by the entries of a file; each such account is proved to be exactly what the model computes.

| Files | What they model |
|---|---|
| `Text.dfy`, `Sorting.dfy`, `Lists.dfy` | string and list operations of the JavaScript runtime (`replaceAll`, `split`, `join`, `trim`, decimal printing, `toSorted`, `flatMap`, distinct values) |
| `AndroidEscapes.dfy`, `AndroidRender.dfy` | the compiler from Kotlin interpolations to positional Android format strings, its escaping, and the decoder |
| `QuotedText.dfy`, `Nesting.dfy`, `QuotedSpans.dfy` | grammars of quoted runs, of nested code between brackets, and of the characters outside of quotes |
| `InterpolationGrammar.dfy`, `BracketGrammar.dfy`, `LiteralGrammar.dfy`, `ChainGrammar.dfy`, `CommaGrammar.dfy` | what the scanners, readers and splitters accept, in those grammars |
| `Literals.dfy`, `KotlinLiterals.dfy`, `SwiftLiterals.dfy`, `LiteralChains.dfy` | printing and reading Kotlin and Swift literals, and chains of them |
| `ClosingDelimiter.dfy`, `TopLevelCommas.dfy`, `KotlinSegments.dfy`, `KotlinCalls.dfy` | finding closing delimiters, splitting at top-level commas, and reading whole calls back |
| `ArgumentLists.dfy` | the quote-aware argument splitter of the temp-path guardrails |
| `Batching.dfy`, `TranslationEngine.dfy`, `TranslationMeaning.dfy` | greedy batching and the retry-and-split translation engine, against any provider; placeholders, and where the texts come from |
| `OutputBuffers.dfy` | the tail-keeping output buffer and the chunked line splitter |
| `ProcessLifecycle.dfy`, `ProcessSystem.dfy` | `runProcess` as an event machine, and any number of calls sharing one active set |
| `ProcessOutcomes.dfy` | outcomes, signals and re-raises, told from the events alone |
| `ProcessRun.dfy`, `ProcessObjects.dfy` | the objects whose handlers do the updates, and why any number of them takes the machine's steps |
| `IdRegistry.dfy`, `IdMeaning.dfy` | stable ids, and which entry gets which, on surfaces, paths and texts |
| `Seats.dfy`, `IdKeeping.dfy`, `IdHistory.dfy` | exactly which ids a run keeps, and histories of runs from any registry |
| `LocaleSync.dfy`, `SyncMeaning.dfy` | locale artifacts and their sync; what is asked for and where each text comes from |
| `AppleCatalog.dfy`, `CatalogMeaning.dfy` | the iOS catalog and its contradiction report; every unit and every contradiction from the inputs |
| `VersionCodes.dfy`, `VersionMeaning.dfy` | version codes and ref names, in numbers too |
| `ReleaseRefs.dfy`, `ReleaseProgress.dfy` | the write-once release-ref protocol, its safety and what it gets done |
| `PathMatcher.dfy` | the `**`/`*` path matcher |
| `RestartProbe.dfy`, `ProbeMeaning.dfy` | the restart probe, and its report on the attempts themselves |

## Conventions

- A Dafny `char` stands for one UTF-16 code unit of a JavaScript string (a lone surrogate is represented by any scalar
  value that is not otherwise used); the scripts decide only on ASCII characters and white space, and strings are compared
  by these characters.
- SHA-256, the JSON codec, the structural signature of a text, the decoder of multi-line literals, and the catalog's
  inventory test and value mapping are function parameters of the lemmas: the results hold for every such function, and
  no freedom from collisions is assumed unless a lemma's `requires` says so.
- The model provider is a function from the number of the prompt and its items to an outcome (a reply, a timeout, another
  failure), so that its answers may change from prompt to prompt. The network of the release protocol may lose a request
  or a reply at every call. Clock readings are integers.
- Exceptions are `Option` or `Result` values; error texts are left out.

## What turned out differently than expected

- `decodeXml` does not undo the Android escaping when a backslash is directly followed by `n`; `DecodeXmlRoundTrip` says
  exactly when it does. A reader that takes entities and then backslash escapes in one pass each has no such gap
  (`ReadAndroidRoundTrip`).
- `appendBoundedProcessOutput` with a limit of zero keeps everything (`slice(-0)`); `CaptureIsTail` gives the exact
  condition, which `resolveRunProcessOutputLimit` always meets.
- With digest collisions, a new entry can take the id of a surviving one (`CollisionsCanSteal`, `StolenId`). For every
  registry, whatever ids it holds, `KeepsExactly` says which entries keep theirs: counting decides, an id's rank (one
  without suffix, k with suffix k) against the entries before it that hold or are known by ids of the same family. A run
  keeps every surviving id exactly when every surviving entry is secure (`AllKeepIdsExactly`). Ids of no current family,
  such as the many of an older scheme in the checked-in inventory, are never lost (`ForeignIdIsKept`), and runs on a part
  of the known identities are always stable (`RerunIsStable`).
- Identities of inventory entries tell surface, path and text apart unless a surface or path holds a NUL character
  (`IdentityExactly`; `NulConfuses` shows two such entries).
- Numeric order of version codes agrees with release order exactly where the patches have the same number of digits
  (after padding to two), or the version with fewer is the earlier one (`CodeOrderAgreesExactly`); 2025.1.100 outgrows
  2026.1.1 (`EarlierWithLargerCode`).
- `chooseTranslation` and `selectDeterministicTranslation` differ only on empty candidate lists of a non-empty source.
- An empty printed literal that is followed by a double quote reads as the start of a multi-line literal
  (`LiteralRoundTrip` has the exact condition).
- Locale sync lets a translator's answer for an id it was not asked for overwrite a reusable text (`ReuseExactly`,
  `UnaskedAnswerWins`); the translation engine gives no such answers (`EngineAnswersOnlyAsked`).

## Model

| member | source | states |
|---|---|---|
| AndroidEscapes.EscapeAndroidIsOnePass | scripts/android-app-i18n.ts:213-220 | The sequential escaping chain of the renderer equals one pass over the characters with a fixed map, for every text. |
| AndroidEscapes.EscapeKotlinIsOnePass | scripts/android-app-i18n.ts:223-229 | The same for the chain that prints Kotlin literals. |
| AndroidEscapes.ChainIsOnePass | scripts/android-app-i18n.ts:213-229 | Any chain of single-character replacements in which no replacement holds a later target is a one-pass character map. |
| AndroidEscapes.DecodeXmlRoundTrip | scripts/android-app-i18n.ts:99-109 | The sequential decoder recovers an escaped text if and only if no backslash is directly followed by `n`. |
| AndroidEscapes.ReadAndroidRoundTrip | scripts/android-app-i18n.ts:213-220 | Reading the five predefined entities of XML 1.0 (section 4.6) and then the backslash escapes that the renderer writes, each in one pass, recovers every escaped text. |
| AndroidEscapes.EscapeAndroidByCharacter | scripts/android-app-i18n.ts:213-220 | The escaped text, character by character: a table of the seven characters that change and what each becomes. |
| AndroidEscapes.EscapeKotlinByCharacter | scripts/android-app-i18n.ts:223-229 | The same table for the Kotlin printer's four characters. |
| AndroidEscapes.EscapedIsInert | scripts/android-app-i18n.ts:213-220 | In every escaped text there is no angle bracket and no line feed, every ampersand starts an entity, and every quote stands behind a backslash. |
| AndroidEscapes.DecodeXmlReadsQuot | scripts/android-app-i18n.ts:99-109 | Anywhere in any text, the decoder reads the entity of the double quote, which the renderer never writes, as a double quote. |
| AndroidRender.ReadKotlinInterpolations | scripts/android-app-i18n.ts:117-167 | The scanner's loop computes the recursive interpolation scan, unbalanced braces included. |
| InterpolationGrammar.TokenEndsExactly | scripts/android-app-i18n.ts:117-167 | An interpolation ends exactly behind the longest name, or behind the brace that closes well-formed code: plain characters, runs in single or double quotes with escapes, nested braces. |
| InterpolationGrammar.ReadingIsExact | scripts/android-app-i18n.ts:117-167 | A list is what the scan finds if and only if it lists disjoint interpolations of the grammar, in order, covering every place where one must start; so the scan gives up exactly when there is no such list. |
| Nesting.ClosingIsGrammatical | scripts/android-app-i18n.ts:137-163 | For any brackets and quote characters, a depth-counting scan finds offset k if and only if well-formed code stands between the start and a closing bracket at k. |
| AndroidRender.InterpolationsPlaced | scripts/android-app-i18n.ts:117-167 | The interpolations found are in order, disjoint, inside the text, and start where an interpolation opens. |
| AndroidRender.InterpolationsComplete | scripts/android-app-i18n.ts:117-167 | No interpolation is missed: every place where one opens lies in one that was found. |
| AndroidRender.TokenCounts | scripts/android-app-i18n.ts:182-191 | The token counts that are compared are the numbers of occurrences of exactly the tokens present. |
| AndroidRender.PositionsArePermutation | scripts/android-app-i18n.ts:192-212 | The emitted positions are a permutation of 1..n, each naming a source token equal to the translated one. |
| AndroidRender.RenderAndroidResourceValue | scripts/android-app-i18n.ts:169-221 | The renderer with its maps and cursors computes the specified result, rejections included; the fallback for a missing index is never needed. |
| AndroidRender.RenderingPreservesMeaning | scripts/android-app-i18n.ts:169-221 | For every valuation, unescaping the rendered string and formatting it with the source tokens' values gives the translation with every token replaced by its value. |
| AndroidRender.RenderingSucceedsExactly | scripts/android-app-i18n.ts:169-191 | Rendering succeeds if and only if both texts scan and every token occurs as often in the one as in the other. |
| InterpolationGrammar.RenderingExactly | scripts/android-app-i18n.ts:169-191 | Rendering succeeds if and only if both texts have interpolations to read, the same ones in any order; it reports imbalance exactly if one of them has none to read. |
| InterpolationGrammar.MeaningOfItself | scripts/android-app-i18n.ts:192-212 | When every token stands for itself, the meaning of a translation is the translation: nothing is lost, doubled or moved. |
| KotlinLiterals.ReadKotlinStringLiteral | scripts/native-app-i18n.ts:439-503 | The reader's loop computes the recursive reading of a literal, interpolations, escapes and failures included. |
| KotlinLiterals.LiteralRoundTrip | scripts/native-app-i18n.ts:439-503 | A printed literal, embedded anywhere, reads back as its text with the exact end offset, if and only if the text is non-empty or no double quote follows. |
| SwiftLiterals.ReadSwiftStringLiteral | scripts/native-app-i18n.ts:373-437 | The reader's loop computes the recursive reading of a Swift literal, interpolations, escapes and failures included. |
| SwiftLiterals.SwiftLiteralRoundTrip | scripts/native-app-i18n.ts:373-437 | Every text has a spelling that reads back, embedded anywhere, with the exact end offset, if and only if the text is non-empty or no double quote follows. |
| LiteralGrammar.ContentIsGrammatical | scripts/native-app-i18n.ts:373-503 | On either surface, a content is read with a value and an end if and only if it is made of characters, escapes and interpolations of well-formed code up to the closing quote, and the value is what these stand for, each escape included. |
| BracketGrammar.KotlinInterpolationIsGrammatical | scripts/native-app-i18n.ts:449-474 | An interpolation in a Kotlin literal ends exactly at the brace behind well-formed code, in which double quotes hide braces. |
| BracketGrammar.SwiftInterpolationIsGrammatical | scripts/native-app-i18n.ts:388-413 | An interpolation in a Swift literal ends exactly at the parenthesis behind well-formed code. |
| ChainGrammar.LiteralIsGrammatical | scripts/native-app-i18n.ts:505-533 | A literal is read if and only if one stands there: three double quotes up to the next three, or a quote, content and the closing quote. |
| ChainGrammar.ChainIsGrammatical | scripts/native-app-i18n.ts:535-561 | A chain is read with its end, number of literals and value if and only if literals joined by plus signs in any white space stand there and no plus sign follows. |
| LiteralChains.ReadAdjacentStringLiterals | scripts/native-app-i18n.ts:535-561 | The cursor loop over concatenated literals of either surface computes the specified chain, dropping chains with a runtime part. |
| LiteralChains.ChainRoundTrip | scripts/native-app-i18n.ts:535-561 | On either surface, spelled non-empty literals joined by plus signs with any white space read back as their concatenation, with their number and exact end, if and only if no further plus follows. |
| TopLevelCommas.PiecesJoin | scripts/android-app-i18n.ts:616-684 | Joining the pieces of any text gives the text back, for any scanner. |
| TopLevelCommas.SplitOfJoin | scripts/android-app-i18n.ts:616-684 | Splitting a joined list gives the list back if and only if no argument has a top-level comma and all but the last are closed. |
| KotlinSegments.SplitTopLevelSegments | scripts/android-app-i18n.ts:616-684 | The index loop with its depth, quote and type-argument variables computes the recursive segmentation of the slice, for any two offsets, those behind the end of the text included. |
| KotlinSegments.SegmentsCutAtTopLevelCommas | scripts/android-app-i18n.ts:616-684 | Segments lie side by side, their values joined by commas are the slice, and boundaries are exactly the top-level commas. |
| KotlinSegments.SegmentsOfJoinedArguments | scripts/android-app-i18n.ts:616-684 | A comma-joined argument list in a slice splits back into the arguments exactly when it is separable, with and without type-argument tracking. |
| ClosingDelimiter.FindClosingDelimiter | scripts/android-app-i18n.ts:521-557 | The depth-counting loop finds the first character that closes what was opened, or nothing. |
| ClosingDelimiter.ClosingEndsBalanced | scripts/android-app-i18n.ts:521-557 | From an opening delimiter, offset k is found if and only if the text up to k is balanced and k holds the closing delimiter. |
| BracketGrammar.DelimiterIsGrammatical | scripts/android-app-i18n.ts:521-557 | For any pair of delimiters, from an opening one the offset found is exactly that of the closing one behind well-formed code, nested pairs and double-quoted runs included. |
| CommaGrammar.KotlinCutsExactly | scripts/android-app-i18n.ts:616-684 | Every text is left whole exactly if in front of each of its commas something is open, and closed exactly if nothing is open at its end either. Nothing is open where all quotes are closed, each kind of bracket is opened as often as closed and, if type arguments are tracked, none is open or a default value has begun. |
| KotlinSegments.SegmentsOfAnySlice | scripts/android-app-i18n.ts:616-684 | For any two offsets, those behind the end of the text included, the segments start and end where asked and their values joined by commas are the slice. |
| KotlinCalls.PrintedIsBalanced | scripts/android-app-i18n.ts:223-229 | A printed literal is balanced for every pair of delimiters, whatever its text holds. |
| KotlinCalls.PrintedIsClosedArgument | scripts/android-app-i18n.ts:616-684 | A printed literal has no top-level comma and leaves nothing open for the splitter. |
| KotlinCalls.PrintedCallRoundTrip | scripts/android-app-i18n.ts:521-684 | In a call with printed literals of any texts, embedded anywhere, the closing parenthesis is found, the splitter cuts between the literals, and each argument reads back as its text with its exact end. |
| CommaGrammar.TopLevelCommasExactly | scripts/android-app-i18n.ts:616-684 | The boundaries of a text, cut by cut: behind a cut, or from the start, the next one is the first comma in front of which nothing is open since then. |
| ArgumentLists.QuoteScanState.BeginQuotedSection | scripts/check-temp-path-guardrails.ts:48-54 | A quote character, and only that, opens a section of its kind, in any state; a pending escape stays. |
| ArgumentLists.QuoteScanState.ConsumeQuotedChar | scripts/check-temp-path-guardrails.ts:56-72 | Inside a quoted section a character is consumed and moves the scan as specified; outside nothing happens. |
| ArgumentLists.FindMatchingParen | scripts/check-temp-path-guardrails.ts:74-97 | The character loop finds the parenthesis that the recursive scan finds, and nothing behind the end of the text. |
| ArgumentLists.SplitTopLevelArguments | scripts/check-temp-path-guardrails.ts:99-163 | The character loop yields the trimmed top-level pieces, without a blank last one. |
| BracketGrammar.MatchingParenIsGrammatical | scripts/check-temp-path-guardrails.ts:74-97 | The parenthesis found is exactly the one behind well-formed code, with runs in single, double and back quotes. |
| QuotedSpans.ScanIsGrammatical | scripts/check-temp-path-guardrails.ts:48-72 | For any quote characters, a scan that ends outside of quotes has seen exactly the characters outside of the quoted runs. |
| CommaGrammar.ArgumentCutsExactly | scripts/check-temp-path-guardrails.ts:99-163 | The same for the argument splitter, where nothing is open if all quotes are closed and, of each kind of bracket, from no point on more is opened than closed. |
| ArgumentLists.SplitOfJoinedArguments | scripts/check-temp-path-guardrails.ts:99-163 | Splitting a joined list gives the trimmed arguments, without a blank last one, if and only if no argument has a top-level comma and all but the last are closed. |
| ArgumentLists.MatchingParenOfCall | scripts/check-temp-path-guardrails.ts:74-97 | In a call with balanced inner text, embedded anywhere, the closing parenthesis of the call is found. |
| ArgumentLists.CallRoundTrip | scripts/check-temp-path-guardrails.ts:74-163 | Finding the parenthesis of a call and splitting what it encloses gives the trimmed arguments of the call. |
| Batching.BuildTranslationBatches | scripts/control-ui-i18n.ts:885-909 | The batches concatenate to the input, are non-empty, hold at most 20 items and are singletons or within the budget; no other such partition has fewer batches. |
| Batching.FitsExactly | scripts/control-ui-i18n.ts:535-537 | The limits in numbers: at most 20 items, and for several items all keys and texts plus ten characters an item and two for the batch within the budget. |
| Batching.GreedyStaysAhead | scripts/control-ui-i18n.ts:885-909 | Any partition into batches that leave no room for the next item needs no more batches than any other partition, started anywhere. |
| TranslationEngine.ParseTranslationBatchReply | scripts/control-ui-i18n.ts:1017-1033 | A reply is accepted if and only if it answers every key with a non-blank text that has the source's placeholders; the result holds exactly the keys asked for. |
| TranslationMeaning.PlaceholdersAreNames | scripts/control-ui-i18n.ts:321-325 | A name is among a text's placeholders if and only if it is a non-empty run of letters, digits and underscores that stands in braces somewhere in the text. |
| TranslationMeaning.RepliesExactly | scripts/control-ui-i18n.ts:1017-1033 | A reply is accepted if and only if it gives for the last item of every key a text that is not blank and holds `{name}` for exactly the names the item's text holds. |
| TranslationEngine.TranslateBatch | scripts/control-ui-i18n.ts:1035-1095 | The attempt loop with its two recursive halves computes the specified result and prompt count, for any provider. |
| TranslationEngine.TranslationIsComplete | scripts/control-ui-i18n.ts:1035-1095 | A returned map has exactly the items' keys, every value non-blank with its source's placeholders, whatever the provider does. |
| TranslationMeaning.TranslationsAreFaithful | scripts/control-ui-i18n.ts:1035-1095 | Whatever the provider does, every item of a finished batch has a text that is not blank, holds `{name}` for exactly the source's names, and was replied by the provider. |
| TranslationMeaning.TextsAreReplies | scripts/control-ui-i18n.ts:1035-1095 | Every returned text is the provider's reply to one of the counted prompts, for the batch or a part that repeated halving, larger half first, leads to. |
| TranslationMeaning.AttemptsExactly | scripts/control-ui-i18n.ts:1035-1095 | Prompt by prompt: a fitting reply ends a batch, a timeout splits it in halves or ends a single item, anything else allows one second prompt. |
| TranslationEngine.PromptsAreBounded | scripts/control-ui-i18n.ts:1035-1095 | A batch of n items takes at least one and at most 4n - 2 prompts. |
| TranslationEngine.BoundIsReached | scripts/control-ui-i18n.ts:1035-1095 | The bound is sharp: some provider makes every batch of non-blank texts succeed after exactly 4n - 2 prompts. |
| TranslationEngine.SplittingSurvivesTimeouts | scripts/control-ui-i18n.ts:1035-1095 | A provider that fails only by timing out on several items always gets the batch done, within 2n - 1 prompts. |
| TranslationEngine.AllComplete | scripts/control-ui-i18n.ts:1103-1137 | Over all batches: a result is complete for the concatenation, and the prompts are bounded by the sum of the batch bounds. |
| TranslationEngine.TranslateNativeEntries | scripts/control-ui-i18n.ts:1103-1137 | Every entry gets exactly one fit translation or the whole call fails; the batches are an optimal partition and the prompts at most 4n minus twice their number. |
| OutputBuffers.AppendKeepsTail | scripts/control-ui-i18n.ts:561-572 | Appending a chunk keeps the capture at the last characters of the output, kept plus truncated equal to the total. |
| OutputBuffers.CaptureIsTail | scripts/control-ui-i18n.ts:553-572 | Folding any chunks keeps exactly the last min(limit, total) characters, if and only if the limit is positive or there is no output. |
| OutputBuffers.SplitLinesConcat | scripts/bench-gateway-restart.ts:973-979 | Splitting a text cut anywhere, even between CR and LF, is splitting the head and continuing with its carry. |
| OutputBuffers.ChunkingDoesNotMatter | scripts/bench-gateway-restart.ts:973-979 | Folding the line collector over any chunks gives the lines and carry of splitting the whole text once. |
| OutputBuffers.LinesAreCutAtLineFeeds | scripts/bench-gateway-restart.ts:973-979 | The lines are the pieces between line feeds, each without one trailing CR, and the carry is the untouched rest. |
| ProcessLifecycle.StepInv | scripts/control-ui-i18n.ts:604-800 | Every event (data, timeout, kill timer, close, error, parent signal, group exit) keeps the invariant of a call. |
| ProcessLifecycle.SettlesOnce | scripts/control-ui-i18n.ts:702-716 | No event changes the outcome of a settled call. |
| ProcessLifecycle.SettledIsInert | scripts/control-ui-i18n.ts:702-716 | A settled call without relayed signal sends no further signal, takes up no parent signal and asks for no re-raise. |
| ProcessLifecycle.ReraiseRequest | scripts/control-ui-i18n.ts:658-685 | A call asks for a re-raise only of the signal it relayed, once it is done and its group has exited or was sent SIGKILL. |
| ProcessSystem.EveryRunIsSafe | scripts/control-ui-i18n.ts:590-802 | On every interleaving of any number of calls, every call keeps its invariant and the active set holds exactly the calls that are unsettled or were handed a signal. |
| ProcessSystem.PromiseSafety | scripts/control-ui-i18n.ts:604-800 | Resolution only after close, without timeout or relayed signal, with complete stdout on exit code zero; a timeout is reported only once the group has exited or was sent SIGKILL; a settled call has no handler and no timeout timer; at most one kill timer, and a relayed signal's stays armed until the group has stopped. |
| ProcessSystem.OutcomesAreFinal | scripts/control-ui-i18n.ts:702-716 | Whatever happens later, in whichever call, a settled promise keeps its outcome. |
| ProcessSystem.ClosedCallsSettle | scripts/control-ui-i18n.ts:746-800 | No call hangs after its child closed: unless it settled or was handed a signal, its kill timer is armed and firing it settles the call. |
| ProcessSystem.ReraiseOnlyWhenAllStopped | scripts/control-ui-i18n.ts:581-588 | The parent signal is re-raised only when every active call was handed a signal and its group has exited or was sent SIGKILL; no call then has a handler installed, and the signal is one that a call relayed. |
| ProcessOutcomes.OutcomesAreTold | scripts/control-ui-i18n.ts:717-745 | At every point of every interleaving, from the events alone: a call settled by its close reports a timeout exactly if one fired, else a failure exactly on a non-zero or missing code with `rejectOnFailure`, else too much output exactly on code zero over the limit, else it resolves with that code, the stderr text with its truncation note and the stdout tail. |
| ProcessOutcomes.SignalsAreDue | scripts/control-ui-i18n.ts:658-764 | A call sends exactly SIGTERM at its timeout, SIGKILL at its kill timers and the parent signals handed to it; until it settles or is handed one it listens to SIGINT, SIGTERM and SIGHUP, and its timeout stays armed until it fires or the call settles. |
| ProcessOutcomes.SettlesExactly | scripts/control-ui-i18n.ts:746-800 | An error settles a call, a close does unless a parent signal was handed over or the call timed out and its group neither exited nor was sent SIGKILL, the timeout's kill timer does if the child has closed, and nothing else does. |
| ProcessOutcomes.ReraisesExactly | scripts/control-ui-i18n.ts:581-588 | The parent re-raises if and only if an event completes a call that was handed a signal and then every active call is complete; the signal is that call's. |
| ProcessRun.Parent.MaybeReraise | scripts/control-ui-i18n.ts:581-588 | The signal goes to the parent if and only if every active state has a signal and is done. |
| ProcessRun.ProcessRun.constructor | scripts/control-ui-i18n.ts:604-617 | A new call starts in the machine's initial state and enters the shared active set. |
| ProcessRun.ProcessRun.DoSettle | scripts/control-ui-i18n.ts:702-716 | Settling updates fields, timers and handlers as the machine does, and leaves the active set exactly when no signal is pending. |
| ProcessRun.ProcessRun.DoFinishClose | scripts/control-ui-i18n.ts:717-745 | The close path settles with the outcome that timeout, exit code and truncation prescribe. |
| ProcessRun.ProcessRun.HandleTimeout | scripts/control-ui-i18n.ts:746-764 | The timeout handler is the machine's timeout step: SIGTERM, and one grace timer unless one is waiting. |
| ProcessRun.ProcessRun.HandleKillTimer | scripts/control-ui-i18n.ts:675-758 | The kill timer is the machine's step: SIGKILL, then the deferred close or the re-raise. |
| ProcessRun.ProcessRun.HandleParentSignal | scripts/control-ui-i18n.ts:658-685 | The signal handler is the machine's step, and re-raises exactly when the machine asks for it and every active call is done. |
| ProcessRun.ProcessRun.HandleClose | scripts/control-ui-i18n.ts:781-800 | The close handler is the machine's step: deferred while the group lives and a kill is due, finished otherwise. |
| ProcessRun.ProcessRun.HandleError | scripts/control-ui-i18n.ts:771-775 | The error handler settles with a rejection unless the call is settled. |
| ProcessRun.ProcessRun.HandleData | scripts/control-ui-i18n.ts:765-770 | Output events append to the bounded buffer of their stream and change nothing else. |
| ProcessRun.ProcessRun.Handle | scripts/control-ui-i18n.ts:604-800 | Handing any enabled event to its handler is the machine's step, active set and re-raise included. |
| ProcessObjects.StartCall | scripts/control-ui-i18n.ts:604-617 | Creating a call object among any number of others is the system's start step. |
| ProcessObjects.Deliver | scripts/control-ui-i18n.ts:604-800 | Handing an event to one of any number of objects that share a parent is the system's step. |
| ProcessObjects.DeliverNext | scripts/control-ui-i18n.ts:581-800 | From any reachable state, one event leads to the next reachable state; the parent re-raises only when every active call was handed a signal and has stopped and no handler is installed; a settled call keeps its outcome. |
| ProcessObjects.Play | scripts/control-ui-i18n.ts:590-802 | Any script of starts and events that can happen, played on objects that share a parent, ends in the system's state after that script. |
| IdRegistry.FreshId | scripts/native-app-i18n.ts:1154-1157 | The suffix loop ends, with the first candidate id that is not taken. |
| IdRegistry.UniqueMeaning | scripts/native-app-i18n.ts:1139-1139 | The map of entries keeps one entry of the input per identity, and loses no identity. |
| IdRegistry.OrderedMeaning | scripts/native-app-i18n.ts:1139-1148 | Deduplicating and sorting leaves exactly one entry per identity. |
| IdRegistry.OrderedIsSorted | scripts/native-app-i18n.ts:1140-1148 | Ids are given out in strictly increasing order of surface, path, line, kind and source. |
| IdRegistry.OrderedIgnoresOrder | scripts/native-app-i18n.ts:1139-1148 | Permuting entries with distinct identities gives the same list. |
| IdMeaning.IdentityExactly | scripts/native-app-i18n.ts:1127-1129 | Same surface, path and text give the same identity, and without NUL in surfaces and paths only those do. |
| IdMeaning.OneEntryPerText | scripts/native-app-i18n.ts:1139-1148 | Without NUL in surfaces and paths, every surface, path and text of the input gets exactly one entry, the last that was collected for it. |
| IdMeaning.OrderedByFields | scripts/native-app-i18n.ts:1140-1148 | Entries come in order of surface, path, line, kind and text, each deciding where all before are equal. |
| IdMeaning.KnownIdIsLast | scripts/native-app-i18n.ts:1136-1138 | The known id of an identity is that of the last previous entry with it. |
| IdMeaning.IdsExactly | scripts/native-app-i18n.ts:1149-1160 | Each entry gets its known id if that is not empty and not taken, else `native.<surface>.<digest>` of surface, path and text if that is not taken, else that with the first free suffix from 2 on. |
| IdRegistry.OutputIgnoresOrder | scripts/native-app-i18n.ts:1131-1161 | Permuting entries with distinct identities gives the same registry, ids included. |
| IdRegistry.AssignNativeI18nIds | scripts/native-app-i18n.ts:1131-1161 | The output is the sorted unique entries, each with the first free id from its previous or base id on. |
| IdRegistry.IdsAreDistinct | scripts/native-app-i18n.ts:1131-1161 | The ids are pairwise distinct, for every digest function. |
| IdRegistry.RerunIsStable | scripts/native-app-i18n.ts:1131-1161 | With the output as previous entries, any part of the identities with any kinds and lines keeps its ids, hash collisions or not. |
| IdRegistry.StableWithoutCollisions | scripts/native-app-i18n.ts:1131-1161 | Without a collision between a new identity and a known one, every surviving identity keeps its id, ids of an older scheme included, and every new one gets an id of its own family. |
| IdRegistry.CollisionsCanSteal | scripts/native-app-i18n.ts:1131-1161 | Whenever a new entry with the same base id sorts before a known one, the run gives it the known id and the known entry a suffixed one, in whatever order the two were collected. |
| IdRegistry.StolenId | scripts/native-app-i18n.ts:1131-1161 | A concrete inventory on which this happens. |
| IdRegistry.FamiliesAreDisjoint | scripts/native-app-i18n.ts:1152-1157 | An id, with or without suffix, tells the surface and digest it was made from. |
| IdKeeping.KeepsExactly | scripts/native-app-i18n.ts:1149-1160 | For any registry, exactly which entries keep their ids, by a counting rule that looks at no id the run gives out. |
| IdKeeping.AllKeepIdsExactly | scripts/native-app-i18n.ts:1149-1160 | For any registry, a run keeps the id of every surviving entry if and only if each is secure: its id is not empty, no entry before is known by it, and fewer before contend for its family than its rank. |
| IdKeeping.KeptWhileOthersKeep | scripts/native-app-i18n.ts:1149-1160 | For any registry, as long as all entries before kept their ids, the next one keeps its own if and only if it is secure. |
| IdKeeping.TakenByHolders | scripts/native-app-i18n.ts:1154-1158 | An id of a family that nobody before is known by has been taken if and only if the family has as many holders as the id's rank and the higher ranks known before. |
| IdKeeping.ForeignIdIsKept | scripts/native-app-i18n.ts:1149-1160 | An id of no current family is never lost, if no entry is known by an id of another entry's family. |
| IdKeeping.SurvivorKeepsIdExactly | scripts/native-app-i18n.ts:1149-1160 | If no entry is known by an id of another entry's family, a surviving entry keeps its id if and only if the id is not of its own family either or fewer entries before contend for it than its rank. |
| IdKeeping.BaseIdKeptExactly | scripts/native-app-i18n.ts:1149-1160 | Then a base id is kept if and only if no entry before with the same base id is new. |
| IdKeeping.RegisteredIdStays | test/scripts/native-app-i18n.test.ts:35-53 | A registered id of any form stays when the entry is found again with another kind and line. |
| IdHistory.RunLeavesSound | scripts/native-app-i18n.ts:1131-1161 | A run leaves distinct identities and distinct, non-empty ids, whatever registry it started from. |
| IdHistory.HistoryKeepsIdsExactly | scripts/native-app-i18n.ts:1131-1161 | At every step of every history, from any registry, the counting rule decides exactly which entries keep their ids. |
| IdHistory.HistoryKeepsAllExactly | scripts/native-app-i18n.ts:1131-1161 | At every step of every history, from any registry, all surviving ids stay if and only if every surviving entry is secure. |
| IdHistory.HistoryCountsContenders | scripts/native-app-i18n.ts:1131-1161 | From a registry none of whose ids is of another identity's family, counting contenders decides it at every step. |
| IdHistory.HistoryWithoutCollisions | scripts/native-app-i18n.ts:1131-1161 | From such a registry, if no two identities that ever occur share a base id, no surviving id ever changes and every new entry gets its base id. |
| IdHistory.HistoryOfBaseIds | scripts/native-app-i18n.ts:1131-1161 | From an empty registry, or one of base ids, all ids then stay base ids, removal and return included. |
| LocaleSync.ValidateNativeLocaleArtifact | scripts/native-app-i18n.ts:1384-1468 | Validation reports no error if and only if the artifact is well-formed, for this locale and glossary, and covers the inventory in order with distinct ids and fitting translations. |
| LocaleSync.SyncNativeLocale | scripts/native-app-i18n.ts:1511-1589 | The sync returns the specified outcome and writes the file exactly when the outcome is a change. |
| SyncMeaning.ConformsFieldByField | scripts/native-app-i18n.ts:1384-1468 | What validation demands, field by field: version 1, locale, glossary hash, and for each inventory entry, ids distinct, its id, source and a text that is not blank and has the source's signature. |
| SyncMeaning.AskedExactly | scripts/native-app-i18n.ts:1534-1550 | A sync has asked, in inventory order, for exactly the entries for which the file holds no text under this glossary: another hash, no entry of the id, or a last one with another source or a blank text. |
| SyncMeaning.ChangedGlossaryAsksForAll | scripts/native-app-i18n.ts:1543-1545 | After a change of the glossary hash the whole inventory is asked for. |
| SyncMeaning.TextsExactly | scripts/native-app-i18n.ts:1551-1563 | Every text written is the translator's answer if there is one, else the file's text for the same id and source, else the source. |
| LocaleSync.SyncCoversInventory | scripts/native-app-i18n.ts:1511-1589 | A successful sync yields the inventory's ids and sources in order, every translation non-blank with its source's structural signature. |
| LocaleSync.UnchangedEntriesAreReused | scripts/native-app-i18n.ts:1511-1589 | Entries with unchanged id, source and glossary keep their text, given a translator that answers only for what it is asked. |
| LocaleSync.ReuseExactly | scripts/native-app-i18n.ts:1511-1589 | For any translator, an unchanged entry keeps its text if and only if the translator gives no other answer for its id. |
| LocaleSync.UnaskedAnswerWins | scripts/native-app-i18n.ts:1511-1589 | A concrete sync in which an answer for an unasked id overwrites a reusable text. |
| LocaleSync.SyncSucceedsExactly | scripts/native-app-i18n.ts:1511-1589 | A sync succeeds if and only if the previous entries can be read, the translator answers when asked, no id is twice in the inventory, and every chosen text is non-blank with its source's signature. |
| LocaleSync.SecondSyncIsIdle | scripts/native-app-i18n.ts:1511-1589 | A second identical sync asks the translator for nothing and writes nothing. |
| AppleCatalog.ChooseTranslation | scripts/apple-app-i18n.ts:565-578 | Counting and sorting choose the one candidate that beats every other: translated before untranslated, then most frequent, then first by code units. |
| AppleCatalog.SelectDeterministicTranslation | scripts/android-app-i18n.ts:978-993 | Counting and sorting choose the most frequent translated candidate, or the source if nothing is translated. |
| CatalogMeaning.ChosenExactly | scripts/apple-app-i18n.ts:565-578 | The choice is the source exactly if nothing else is offered, and otherwise the translation than which none is more frequent, or as frequent and earlier. |
| CatalogMeaning.SelectedExactly | scripts/android-app-i18n.ts:978-993 | The same for the Android choice, the empty text without candidates. |
| Sorting.StringLessExactly | scripts/apple-app-i18n.ts:441-443 | One text comes before another exactly if it is a proper prefix or has the smaller character at the first difference. |
| AppleCatalog.ChoicesAgree | scripts/apple-app-i18n.ts:565-578 | Both scripts choose the same translation if and only if there are candidates or the source is empty. |
| AppleCatalog.ChoiceIgnoresOrder | scripts/apple-app-i18n.ts:565-578 | The choice does not depend on the order of the candidates. |
| AppleCatalog.BuildLocalizations | scripts/apple-app-i18n.ts:620-653 | The loop over locales fills one source's localizations and reports its contradictions as specified. |
| AppleCatalog.BuildIosCatalog | scripts/apple-app-i18n.ts:580-666 | The loops over sorted sources and required locales compute the specified catalog and the sorted contradiction report. |
| CatalogMeaning.CatalogExactly | scripts/apple-app-i18n.ts:580-666 | The catalog holds exactly the values of the inventory's catalog entries in exactly the required locales; each unit is the shipped one, in English the source, and otherwise the choice among what the locale's last artifact offers under ids of that source, marked new exactly if it is the source. |
| AppleCatalog.BuildIsFixpoint | scripts/apple-app-i18n.ts:580-666 | Building on its own output with the same inputs changes nothing. |
| AppleCatalog.ShippedStays | scripts/apple-app-i18n.ts:580-666 | A shipped translation survives any sequence of builds in which its source and locale stay required. |
| AppleCatalog.BuildIgnoresOrder | scripts/apple-app-i18n.ts:580-666 | Reordering the inventory, the required locales or the entries of the artifacts that count changes neither the catalog nor the contradiction report. |
| AppleCatalog.BuildIgnoresArtifactOrder | scripts/apple-app-i18n.ts:580-666 | With artifacts of distinct locales, the artifacts may be permuted too. |
| AppleCatalog.ReportMeaning | scripts/apple-app-i18n.ts:618-665 | The report holds exactly the sources and locales with more than one distinct offer, each with its offers sorted, in order of source and locale. |
| CatalogMeaning.ReportExactly | scripts/apple-app-i18n.ts:618-665 | The report names exactly the catalog sources and required locales for which different values are offered, each with what is offered, increasing. |
| CatalogMeaning.ReportOrder | scripts/apple-app-i18n.ts:661-664 | It is ordered by source, then locale, and without repetition if the required locales are. |
| VersionMeaning.VersionsExactly | scripts/mobile-release-ref.ts:160-166 | A text is accepted as version if and only if it is the decimal text of a year from 2000 to 2099, a number from 1 to 99 and a number from 1 on, with dots between. |
| VersionMeaning.CodesExactly | scripts/mobile-release-ref.ts:176-197 | The codes of such a version are year, month and patch with at least two digits each, and a number from 01 to 99. |
| VersionMeaning.RefsExactly | scripts/mobile-release-ref.ts:199-213 | When a ref is given at all and which, for both platforms. |
| VersionCodes.AcceptedCodes | scripts/mobile-release-ref.ts:176-197 | The codes accepted for a version are exactly its prefix followed by 01 to 99. |
| VersionCodes.CodeDeterminesVersion | scripts/mobile-release-ref.ts:160-197 | No code is accepted for two versions. |
| VersionCodes.CodeOrder | scripts/mobile-release-ref.ts:176-197 | Numeric order of codes: fewer patch digits first, then year, month, patch and suffix. |
| VersionCodes.CodeOrderBelow100 | scripts/mobile-release-ref.ts:176-197 | For patches below 100 numeric order is release order. |
| VersionCodes.CodeOrderFrom100 | scripts/mobile-release-ref.ts:176-197 | A patch of 100 or more gives a larger code than every version with a patch below 100 has. |
| VersionCodes.CodeOrderAgreesExactly | scripts/mobile-release-ref.ts:176-197 | Numeric order and release order agree on two codes if and only if the patches have the same number of digits, or the code with fewer is the earlier release. |
| VersionCodes.EarlierWithLargerCode | scripts/mobile-release-ref.ts:176-197 | An earlier version can have the larger code: 2025.1.100 and 2026.1.1. |
| VersionCodes.RefsAreInjective | scripts/mobile-release-ref.ts:199-213 | Two accepted releases get the same ref if and only if platform, version and build or code are the same. |
| ReleaseRefs.Recorder.Next | scripts/mobile-release-ref.ts:257-326 | One git call of a run changes remote and stage as the protocol prescribes. |
| ReleaseRefs.RecordMobileReleaseRef | scripts/mobile-release-ref.ts:278-313 | Undisturbed, a record creates the ref, recognises its own commit, or reports the conflicting one, and changes nothing else. |
| ReleaseRefs.RefsAreWriteOnce | scripts/mobile-release-ref.ts:257-326 | On every interleaving of any number of runs with any network losses, a ref that exists never changes and no run is wrong about the remote. |
| ReleaseRefs.RecordersAgree | scripts/mobile-release-ref.ts:257-326 | Runs that succeed on a ref agree on its commit, resolves and conflicts report that commit, and the mismatch error is unreachable. |
| ReleaseRefs.LaterReadsFindIt | scripts/mobile-release-ref.ts:225-326 | Once a run has succeeded, every later resolve returns its commit and every later record of the ref is told so. |
| ReleaseRefs.OutsideWritesAreNoticed | scripts/mobile-release-ref.ts:278-313 | If somebody else deletes the ref between push and verification, the run reports the mismatch. |
| ReleaseProgress.OneCommitAlwaysSucceeds | scripts/mobile-release-ref.ts:257-326 | On every interleaving in which the network works and everybody who records a ref records the same commit, no record fails, racing ones included, and a resolve finds that commit or nothing yet. |
| ReleaseProgress.LostCallsFail | scripts/mobile-release-ref.ts:225-313 | A git call without network never leads to a success, and leaves a change only if it is a push whose reply was lost. |
| PathMatcher.MatchingIsReading | scripts/check-policy-config-coverage.ts:203-232 | A pattern matches if and only if the value can be cut into one run per pattern part, any run for `**`, one part for `*`, the part itself otherwise. |
| PathMatcher.ConcatenationSplits | scripts/check-policy-config-coverage.ts:209-232 | A concatenated pattern matches exactly when the value can be cut into parts matched by each half. |
| PathMatcher.DoubledRunCollapses | scripts/check-policy-config-coverage.ts:209-232 | Anywhere in a pattern, a doubled `**` matches what a single one does. |
| PathMatcher.PartAndRunCommute | scripts/check-policy-config-coverage.ts:209-232 | Anywhere in a pattern, `*` before `**` matches what `**` before `*` does. |
| PathMatcher.LiteralMatchesItself | scripts/check-policy-config-coverage.ts:209-232 | A pattern without stars matches itself and nothing else. |
| PathMatcher.JoinedPathsMatch | scripts/check-policy-config-coverage.ts:203-207 | Dotted patterns that match two paths match, joined by a dot, the joined path. |
| PathMatcher.SubtreeOfPattern | scripts/check-policy-config-coverage.ts:203-207 | A pattern followed by `.**` covers exactly the paths some prefix of which the pattern covers. |
| PathMatcher.DottedPatternsSimplify | scripts/check-policy-config-coverage.ts:203-232 | The two simplifications on dotted pattern strings. |
| RestartProbe.WaitForRestartProbe | scripts/bench-gateway-restart.ts:680-765 | The polling loop stops where specified and reports, for the attempts made, the first failure, the recovery after it, the first error kind and the state changes. |
| RestartProbe.DowntimeIsTheOutage | scripts/bench-gateway-restart.ts:680-765 | A downtime is reported if and only if the loop reaches the first success after the first failure, and it is the time between the two. |
| RestartProbe.DowntimeIsNotNegative | scripts/bench-gateway-restart.ts:745-756 | With clock readings that never go back, a reported downtime is not negative. |
| RestartProbe.ChangePointsAreTheChanges | scripts/bench-gateway-restart.ts:717-732 | Transitions stand, in order, at exactly the attempts whose state differs from the one before. |
| RestartProbe.TransitionsTellEveryState | scripts/bench-gateway-restart.ts:717-732 | The status of every attempt is that of the latest transition up to it, and so is its error kind, except exactly where a missing kind meets one spelled `ok`. |
| RestartProbe.SameKeySameState | scripts/bench-gateway-restart.ts:717-717 | The state key tells status and error kind apart, a missing kind reading `ok`. |
| ProbeMeaning.DowntimeExactly | scripts/bench-gateway-restart.ts:680-765 | A downtime is reported if and only if the loop gets to the first status 200 after the first other status, and it is the time between the two. |
| ProbeMeaning.FirstErrorExactly | scripts/bench-gateway-restart.ts:733-735 | The error kind reported is the first one that is not empty. |
| ProbeMeaning.TransitionsExactly | scripts/bench-gateway-restart.ts:717-732 | The transitions are exactly the attempts that differ from the one before in status or error kind, in order, each with its time, status and kind. |

## Left out

- UnchangedEntriesAreReused: assumes a translator that answers only for what it is asked; `ReuseExactly` covers every translator.
- ReraiseOnlyWhenAllStopped: safety only; that a signal is eventually re-raised is not promised by the code when new calls start after a signal was delivered.
- DowntimeIsNotNegative: assumes clock readings that never go back, as those of a monotonic clock.
- StableWithoutCollisions: gives a sufficient condition; `IdKeeping.KeepsExactly` and `IdKeeping.AllKeepIdsExactly` give exact ones.
- OneEntryPerText: for surfaces and paths without NUL, which `NulConfuses` shows to be needed; on identities, `UniqueMeaning` and `OrderedMeaning` hold for all entries.
- SurvivorKeepsIdExactly: counts contenders only where no entry is known by an id of another entry's family; `IdKeeping.KeepsExactly` covers every registry.
- BuildIosCatalog: catalog strings are a map; the order in which a JavaScript object lists them, integer-like keys first, is not modelled.
- BuildTranslationBatches: budgets are integers; a fractional budget behaves as its floor.
- Process groups are modelled by whether they are still alive and which signals were sent; the Windows `taskkill` branches, process-id reuse and the diagnostic appended to stderr when a group cannot be signalled are not modelled.
- Spawning, sockets, HTTP requests, git itself and the file system are events, oracles or fields; paths, command lines, error texts, progress output and the decoding of chunks from bytes are not modelled.
- Parsing a provider's reply to JSON, and the prompts themselves: a reply is a map of JSON values or a failure.
- The decoding of multi-line literals is a function parameter; the scripts have no printer for Swift literals, so the spelling used there is this project's own.
- ReadAndroidRoundTrip: the reader covers the escapes that the renderer writes; Android's resource compiler also collapses unquoted white space, treats a leading `@` or `?` specially, and reads `\t` and `\u`.
- The sorted JSON text of token counts in the renderer is compared as a map of counts, which it encodes one-to-one.
- `appleCatalogValue` and the test for iOS inventory entries are function parameters of the catalog; its language and version constants are not modelled.
- Translation-quality findings of the sync, the locale plan and the strongly-connected-component code imported from `scripts/lib` are not modelled.
- `waitForProbeReady` is the same loop without the outage; it would add only easy members.
- Regular-expression harvesting of UI literals, catalog flattening, argument parsing and report printing have no crisp meaning to prove or only easy members.
