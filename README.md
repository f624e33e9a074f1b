# TranslateX in Dafny

A model of the core of TranslateX, a translation web app, with proofs about it.
The model covers:

- the translation cache in `localStorage`:
  - the 32-bit rolling-hash key;
  - the seven-day expiry;
  - lazy removal on read;
  - the hourly cleanup that walks the keys by index and steps back after each removal;
  - the write with its forced cleanup and single retry;
- the translation history in `localStorage`:
  - reading validates and sorts;
  - adding validates the entry, puts it first and keeps at most 50;
  - when the quota is exceeded, adding keeps the newest 25;
  - favourites are toggled by id;
  - clearing removes the key;
- the translator screen:
  - the decision chain of `handleTranslate`;
  - what settling a live call does to the screen, the cache and the history;
  - the 500 ms debounce;
  - swap, clear, the language selectors;
  - the speech-result transcript and the speech-error messages;
- the language list and the lookup by code, with its base-code fallback;
- the history panel: the favourites filter and search, the newest-first order, the optimistic favourite toggle and the reset on close;
- the language picker: its search, its flags and its selection;
- the typewriter hook, which reveals a text one UTF-16 code unit per tick.

The clock (`Date.now()`), the new id (`crypto.randomUUID()`), the connectivity flags, the live call's answer and each storage write's quota failure are parameters.
The browser storage is a `Storage` class:

- its fields are an ordered key list and a map from key to a parsed value;
- the parsed value is a cache record, a number, a list of history records, or `Malformed` for text that does not parse;
- an unavailable storage is `null`.

Each operation that changes storage is a method on that class. Its postcondition ties the new content to a specification function of the old content (`CleanupResult`, `CacheWriteResult`, `AddHistoryResult`, `ToggleResult`, `SettledState`). The lemmas state what the source promises about those functions.

Files:

- `common.dfy` holds the JavaScript string helpers: `trim`, ASCII `toLowerCase`, `includes`, UTF-16 code units and decimal rendering.
- `types.dfy` holds the history record.
- `storage.dfy` holds `localStorage`.
- The services: `cache_service.dfy` and `history_service.dfy`.
- The components: `translator.dfy`, `history_panel.dfy`, `language_selector.dfy` and `typewriter.dfy`.
- `languages.dfy` holds the language list.

## Model

| member | source | states |
|---|---|---|
| Common.SkipBlanks | src/components/translator.tsx:107 | the first non-whitespace position at or after `i`, never past the end |
| Common.BackOverBlanks | src/components/translator.tsx:107 | the end of the text once trailing whitespace is dropped, never below `lo`; the character before it is not whitespace |
| Common.SkippedAreBlank | src/components/translator.tsx:107 | every character the leading skip passes over is whitespace |
| Common.DroppedAreBlank | src/components/translator.tsx:107 | every character the trailing skip drops is whitespace |
| Common.BlankAt | src/components/translator.tsx:201 | `text.trim()` is empty (falsy) exactly when every character is ECMAScript whitespace |
| Common.Trim | src/components/translator.tsx:107 | `trim()` is empty exactly when the text is blank, and otherwise neither starts nor ends with whitespace |
| Common.TrimRemovesOnlyWhitespace | src/components/translator.tsx:107 | the text is some whitespace, then the trimmed text, then some whitespace |
| Common.TrimIdempotent | src/components/translator.tsx:107 | trimming a trimmed text changes nothing |
| Common.LowerChar | src/components/history-panel.tsx:82 | an ASCII capital becomes its small letter; every other character is unchanged |
| Common.ToLower | src/components/history-panel.tsx:85-88 | lower-casing keeps the length and lower-cases each character |
| Common.Includes | src/components/history-panel.tsx:85-88 | `includes` is true exactly when the term occurs at some position |
| Common.CodeUnits | src/services/cacheService.ts:23-24 | one or two UTF-16 code units per character: the character itself below U+10000, else a surrogate pair that encodes it |
| Common.Utf16 | src/services/cacheService.ts:23 | `split('')` gives between one and two 16-bit code units per character |
| Common.DigitChar | src/services/cacheService.ts:27 | a digit below ten is rendered as a character `0`..`9` |
| Common.NatToDecimal | src/services/cacheService.ts:27 | a non-negative number is rendered as a non-empty string of decimal digits that reads back as the number (`DecimalValue`, the digit-by-digit reader) |
| LocalStorage.Without | src/services/cacheService.ts:130-132 | removing a key keeps exactly the other keys, keeps them distinct, and never lengthens the list |
| LocalStorage.WithoutAt | src/services/cacheService.ts:130-132 | with distinct keys, removing the key at position `i` leaves the keys before `i`, then those after it, in their order |
| LocalStorage.WithoutAbsent | src/services/cacheService.ts:130-132 | removing a key that is not stored leaves the key list as it was |
| LocalStorage.WithKey | src/services/cacheService.ts:50 | `setItem` of a new key adds it; an existing key keeps its place |
| LocalStorage.SetItemResult | src/services/historyService.ts:74 | a write that does not exceed the quota stores the value under the key; every other key keeps its value |
| LocalStorage.Storage.GetItem | src/services/cacheService.ts:79 | `getItem` finds a value exactly when the key is stored, and finds the stored value |
| LocalStorage.Storage.SetItem | src/services/cacheService.ts:50 | `setItem` succeeds unless it exceeds the quota; the new content is `SetItemResult` of the old, and the storage stays well formed |
| LocalStorage.Storage.RemoveItem | src/services/cacheService.ts:92 | `removeItem` drops the key and its value; later keys move down one place |
| CacheService.ToInt32 | src/services/cacheService.ts:24-25 | the 32-bit conversion lands in the signed 32-bit range and differs from its argument by a multiple of 2^32 |
| CacheService.HashStepIsRolling | src/services/cacheService.ts:24-25 | `((acc << 5) - acc) + code`, then `acc & acc`, is the rolling step `toInt32(31 * acc + code)` |
| CacheService.HashStep | src/services/cacheService.ts:24-25 | one step of the `reduce` callback leaves the accumulator a signed 32-bit integer (`HashStepIsRolling` gives its value) |
| CacheService.HashCode | src/services/cacheService.ts:23-26 | the folded hash is a signed 32-bit integer |
| CacheService.HashCodeIsPolynomial | src/services/cacheService.ts:23-26 | the folded hash is the polynomial hash `sum u[i]*31^(n-1-i)` taken modulo 2^32 into the signed range |
| CacheService.HashDigits | src/services/cacheService.ts:27 | `Math.abs(hash)` as text is non-empty, contains no `_`, and reads back as the absolute hash |
| CacheService.GenerateCacheKey | src/services/cacheService.ts:21-28 | the key starts with `translationCache_`, and after the prefix, both codes and two `_` it ends in digits that read back as `Math.abs` of the 32-bit hash of the text |
| CacheService.CacheKeyIsEntryKey | src/services/cacheService.ts:21-28 | every generated key starts with `translationCache_` and is never the reserved `translationCache_lastCleanup` key |
| CacheService.CacheKeyDeterminesPair | src/services/cacheService.ts:21-28 | for codes without `_`, equal keys mean equal source and target languages and equal absolute hashes |
| CacheService.CacheKeyCollision | src/services/cacheService.ts:21-28 | the hash is weak: `"Aa"` and `"BB"` get the same key for every language pair |
| CacheService.ExpiryBoundaryAgrees | src/services/cacheService.ts:87-129 | a record is served (`now - timestamp < 7 days`) exactly when the cleanup does not remove it (`>= 7 days`) |
| CacheService.GetCachedTranslation | src/services/cacheService.ts:69-102 | serves the stored text of a fresh record; an expired, untimed or corrupt value is removed and reads as a miss; no storage means a miss |
| CacheService.LookupServesOnlyFresh | src/services/cacheService.ts:81-97 | a hit happens exactly for a record younger than seven days and answers its text; the key survives the read exactly when it was a hit; reading twice is reading once |
| CacheService.LastCleanupTime | src/services/cacheService.ts:113 | `parseInt` of the stamp: `0` when there is none, the stored number when it is one, and NaN (`None`) for any other value |
| CacheService.SweepKeys | src/services/cacheService.ts:122-142 | the keys the cleanup leaves are the original keys it keeps, distinct, none added |
| CacheService.SweepSound | src/services/cacheService.ts:124-139 | after a sweep no prefixed entry is stale, every servable entry survives, and every key outside the cache is untouched |
| CacheService.SweepKeepStep | src/services/cacheService.ts:122-126 | a key the cleanup keeps joins the swept prefix, and the cursor moves on |
| CacheService.SweepRemoveStep | src/services/cacheService.ts:130-138 | after a removal the later keys move down, so the `i--` lands the cursor on the next original key |
| CacheService.SweepAt | src/services/cacheService.ts:123-140 | the body of one pass removes the key under the cursor exactly when it is a prefixed, non-stamp key whose value is corrupt or at least seven days old |
| CacheService.SweepStoredEntries | src/services/cacheService.ts:120-142 | the index walk with its `i--` correction leaves exactly the keys the cleanup keeps, in order, and counts the removals |
| CacheService.CleanupFrame | src/services/cacheService.ts:108-143 | a cleanup adds nothing but the stamp and removes nothing it keeps; when due, no stale entry survives, and a successful stamp write sets `lastCleanup` to `now` |
| CacheService.CleanupThrottled | src/services/cacheService.ts:113-117 | after a successful cleanup, an unforced one within the hour is not due and changes nothing |
| CacheService.CleanupOldCacheEntries | src/services/cacheService.ts:108-147 | does nothing when not forced and within the hour; otherwise sweeps and writes the stamp; reports whether that write threw and how many entries went |
| CacheService.CacheTranslation | src/services/cacheService.ts:33-64 | the write, the hourly cleanup, then on failure a forced cleanup and one retry; the new content is `CacheWriteResult`; an exception escapes only from the forced cleanup |
| CacheService.CacheWriteFrame | src/services/cacheService.ts:33-64 | a cache write changes no key except its own and the stamp; it removes only what the cleanup removes |
| CacheService.CacheWriteStoresRecord | src/services/cacheService.ts:49-59 | unless the first write fails and the recovery does not complete, the record `{targetText, now}` is stored under the key |
| CacheService.CacheWriteEscapeCondition | src/services/cacheService.ts:53-63 | an exception leaves the write exactly when the forced stamp fails, after either the first write or the hourly stamp failed |
| CacheService.CacheRoundTrip | src/services/cacheService.ts:43-89 | writing at `t0` and reading the same triple before seven days have passed gives the written text; at seven days or later it gives nothing |
| HistoryService.CompleteEntries | src/services/historyService.ts:25 | the filter is an order-preserving subsequence holding exactly the complete entries, all of them when every entry is complete |
| HistoryService.CompleteEntriesCounts | src/services/historyService.ts:25 | the filter keeps each complete entry as many times as it is stored, and no incomplete one |
| HistoryService.InsertNewestFirst | src/services/historyService.ts:26 | inserting into a newest-first list keeps it newest first and adds exactly that entry |
| HistoryService.SortNewestFirst | src/services/historyService.ts:26 | the sort gives a newest-first permutation of its input |
| HistoryService.SortSortedIsIdentity | src/services/historyService.ts:26 | sorting a newest-first list leaves it unchanged |
| HistoryService.FetchedHistoryIsValid | src/services/historyService.ts:20-34 | the fetched history is complete entries only, newest first, and holds exactly the stored complete entries; anything but a stored list reads as `[]` |
| HistoryService.FetchIsStable | src/services/historyService.ts:20-34 | fetching again removes nothing more and returns the same history |
| HistoryService.FetchHistory | src/services/historyService.ts:13-35 | returns the validated, sorted stored history; a corrupt value is removed and reads as `[]`; no storage gives `[]` |
| HistoryService.CodeOrLookup | src/services/historyService.ts:51-52 | a given code is kept; a missing one is looked up from the label, and stays missing when the lookup finds nothing |
| HistoryService.NewEntry | src/services/historyService.ts:49-57 | the new entry carries the data, the new id, the time of the call, and is not a favourite |
| HistoryService.Bounded | src/services/historyService.ts:71-73 | the list is truncated to its first 50 entries |
| HistoryService.AddHistoryResult | src/services/historyService.ts:41-97 | the returned id is `''` or the new id, and a non-empty one means the data was valid and the new entry is stored first in the history |
| HistoryService.AddHistoryEntry | src/services/historyService.ts:41-97 | the new content and the returned id are `AddHistoryResult` of the old content; no storage gives `''` |
| HistoryService.AddRejectsInvalid | src/services/historyService.ts:60-63 | an entry missing a label or a text is refused with `''` and nothing is written |
| HistoryService.AddPutsNewestFirst | src/services/historyService.ts:66-76 | a successful add returns the id and stores the new entry first, then the previous history in order, at most 50 in all |
| HistoryService.AddQuotaFallback | src/services/historyService.ts:77-95 | after a quota failure: with more than 25 stored, the new entry followed by the newest 25 (26 in all); otherwise `''` and no write |
| HistoryService.AddTouchesOnlyHistory | src/services/historyService.ts:41-97 | adding changes no key but the history key |
| HistoryService.LabelFallbackFindsNoCode | src/services/historyService.ts:51-52 | the code fallback looks the display label up as a code, so for every supported label it finds nothing |
| HistoryService.FlipById | src/services/historyService.ts:114-120 | the `map` changes only `isFavorite`, and flips it exactly on the entries with the id |
| HistoryService.FlipByIdTwiceRestores | src/services/historyService.ts:114-120 | flipping the same id twice restores every flag |
| HistoryService.FlipByIdKeepsValid | src/services/historyService.ts:114-120 | flipping keeps a fetched history complete and newest first, and keeps its ids |
| HistoryService.FlipMatching | src/services/historyService.ts:113-120 | the loop builds the flipped list, and sets `updated` exactly when some entry has the id |
| HistoryService.ToggleResult | src/services/historyService.ts:104-133 | a toggle changes no key but the history key |
| HistoryService.ToggleFavorite | src/services/historyService.ts:104-133 | the new content is `ToggleResult`: written only when an entry matched, with a failed write swallowed |
| HistoryService.ToggleFlipsOnlyMatching | src/services/historyService.ts:112-127 | with no match nothing is written; with a match the history reads back with only that entry's flag flipped |
| HistoryService.ToggleTwiceRestores | src/services/historyService.ts:112-127 | toggling the same id twice reads back the original history |
| HistoryService.ClearHistory | src/services/historyService.ts:138-151 | removes the history key and nothing else; the history then reads as empty |
| Languages.BaseCode | src/lib/languages.ts:41 | `split('-')[0]` is a prefix of the code with no `-`, followed by `-` when shorter |
| Languages.FindLanguage | src/lib/languages.ts:42 | `find` returns the first language matching the code or its base, or nothing exactly when none matches |
| Languages.GetLanguageByValue | src/lib/languages.ts:39-43 | a found language is supported and has the code or its base code; nothing is found exactly when no supported code is either |
| Languages.SupportedCodesDistinct | src/lib/languages.ts:9-31 | the supported codes are pairwise distinct |
| Languages.SupportedCodesPlain | src/lib/languages.ts:9-31 | every supported code has two letters and no `-` or `_` |
| Languages.GetLanguageByBaseCode | src/lib/languages.ts:39-43 | a code whose base code is supported finds exactly that language |
| Languages.GetLanguageByValueOfSupported | src/lib/languages.ts:39-43 | looking up a supported code finds that language |
| Languages.RegionalCodeResolves | src/lib/languages.ts:40-42 | `zh-CN` resolves to the `zh` entry |
| Languages.UnlistedBaseResolvesToNothing | src/lib/languages.ts:42 | `xx-YY` resolves to nothing |
| Languages.SupportedLabelsWordLike | src/lib/languages.ts:9-31 | every English label has at least three letters before any `-` |
| Languages.WordLikeValueFindsNothing | src/lib/languages.ts:39-43 | such a value (and its base code) matches no two-letter code |
| Languages.DefaultsSupported | src/lib/languages.ts:34-35 | `en` and `es` are supported, distinct, and resolve to the first two entries |
| LanguageSelector.RegionalFlag | src/components/language-selector-sheet.tsx:19-23 | a region's flag is its two regional indicator symbols |
| LanguageSelector.FlagEmoji | src/components/language-selector-sheet.tsx:19-28 | each of the 11 listed codes gets the flag of its region; any other code gets the white flag |
| LanguageSelector.FlagsDistinguishRegions | src/components/language-selector-sheet.tsx:19-28 | a listed code never shows the default flag; two listed codes share a flag exactly when they name the same region |
| LanguageSelector.ListedFlagsDistinct | src/components/language-selector-sheet.tsx:19-23 | the 11 listed codes show 11 different flags |
| LanguageSelector.SupportedLanguageFlags | src/components/language-selector-sheet.tsx:19-28 | the first 11 supported languages have flags; the other 9 show the white flag |
| LanguageSelector.FlagLookupAsWritten | src/components/language-selector-sheet.tsx:26-28 | the lookup as written returns an inherited `Object.prototype` member for such a name, the listed flag for a listed code, and the white flag otherwise |
| LanguageSelector.ConstructorCodeGetsNoFlag | src/components/language-selector-sheet.tsx:26-28 | the code `constructor` gets the inherited constructor as written, but the white flag from `FlagEmoji` |
| LanguageSelector.SupportedCodesGetFlags | src/components/language-selector-sheet.tsx:26-28 | on every supported code the lookup as written agrees with `FlagEmoji` |
| LanguageSelector.MatchesSearch | src/components/language-selector-sheet.tsx:51-53 | the empty term matches every language; a term longer than the label, and than the native label if any, matches none |
| LanguageSelector.FilteredLanguages | src/components/language-selector-sheet.tsx:50-54 | the filter is an order-preserving subsequence holding exactly the languages that match the lower-cased term |
| LanguageSelector.FilteredLanguagesCounts | src/components/language-selector-sheet.tsx:50-54 | the filter keeps every matching language as many times as it occurs in the list, and no other language |
| LanguageSelector.FilteredLanguagesMembers | src/components/language-selector-sheet.tsx:50-54 | a language is listed exactly when the lower-cased term occurs in its lower-cased label or native label; a missing native label matches nothing |
| LanguageSelector.EmptySearchKeepsAll | src/components/language-selector-sheet.tsx:50-54 | an empty term keeps every language |
| LanguageSelector.HandleSelect | src/components/language-selector-sheet.tsx:56-60 | forwards the chosen value, closes the sheet, and resets the term so every language is listed again |
| HistoryPanelComponent.MatchesTerm | src/components/history-panel.tsx:84-88 | the empty term matches every entry; a term longer than both texts and both labels matches none |
| HistoryPanelComponent.KeptEntries | src/components/history-panel.tsx:77-90 | the filter is an order-preserving subsequence of the history holding exactly the entries the callback keeps |
| HistoryPanelComponent.KeptEntriesCounts | src/components/history-panel.tsx:77-90 | the filter keeps every entry the callback accepts as many times as it occurs in the history, and no other entry |
| HistoryPanelComponent.FilteredHistory | src/components/history-panel.tsx:77-91 | the shown list is newest first and a permutation of the kept entries |
| HistoryPanelComponent.FilteredHistoryMembers | src/components/history-panel.tsx:77-91 | shown exactly when in the history, a favourite if only favourites are shown, and the term empty or found (lower-cased) in either text or either label |
| HistoryPanelComponent.FavoritesFilterShowsOnlyFavorites | src/components/history-panel.tsx:79-81 | with the favourites filter on, every shown entry is a favourite |
| HistoryPanelComponent.EmptySearchShowsEverything | src/components/history-panel.tsx:82-83 | with an empty term and no favourites filter, every entry is shown, as often as it occurs |
| HistoryPanelComponent.SortKeepsFetchedOrder | src/components/history-panel.tsx:91 | on a newest-first history the sort changes nothing: the kept entries in stored order |
| HistoryPanelComponent.OptimisticFlipMatchesService | src/components/history-panel.tsx:56-64 | the optimistic flip of the shown history equals what the service stores when its write succeeds |
| HistoryPanelComponent.HistoryPanel.constructor | src/components/history-panel.tsx:26-30 | the panel starts with no term, no favourites filter, an empty list and the loading flag set |
| HistoryPanelComponent.HistoryPanel.SetOpen | src/components/history-panel.tsx:33-54 | opening loads the stored history (removing a corrupt value); closing resets the term and the favourites filter; no change runs nothing |
| HistoryPanelComponent.HistoryPanel.SetSearchTerm | src/components/history-panel.tsx:118 | the search box sets the term and nothing else |
| HistoryPanelComponent.HistoryPanel.ToggleShowFavorites | src/components/history-panel.tsx:127 | the star button flips the favourites filter and nothing else |
| HistoryPanelComponent.HistoryPanel.HandleToggleFavorite | src/components/history-panel.tsx:56-75 | flips the entry at once and toggles it in storage; a rejected call flips it back, restoring the list |
| HistoryPanelComponent.OpenAndToggle | src/components/history-panel.tsx:33-75 | after opening and a successful toggle, the panel shows exactly what the storage then holds |
| TypewriterHook.Typewriter.Shown | src/hooks/use-typewriter.ts:53 | between renders, once the effect has run, the displayed text is a prefix of the target |
| TypewriterHook.Typewriter.Restart | src/hooks/use-typewriter.ts:19-41 | the effect resets the index and the displayed text and schedules a tick only for a non-empty text |
| TypewriterHook.Typewriter.constructor | src/hooks/use-typewriter.ts:12-41 | mounting shows nothing and schedules a tick only for a non-empty text |
| TypewriterHook.Typewriter.Render | src/hooks/use-typewriter.ts:17-53 | the render returns the `displayedText` it starts from, a prefix of the previous target; then a new text or speed clears the timer and starts again from nothing, and otherwise nothing changes |
| TypewriterHook.Typewriter.Tick | src/hooks/use-typewriter.ts:30-38 | while units remain a tick appends exactly `text[index]`, increments the index and reschedules; otherwise it clears the timer |
| TypewriterHook.Typewriter.Unmount | src/hooks/use-typewriter.ts:45-50 | the cleanup leaves no tick scheduled and changes nothing else |
| TypewriterHook.RenderNewTarget | src/hooks/use-typewriter.ts:17-20 | after `a` of `ab` is revealed, the render bringing `xy` returns `a`, no prefix of `xy`, and the next render returns `''` |
| TypewriterHook.TypeOut | src/hooks/use-typewriter.ts:30-40 | letting a started text run shows it in full after one tick per code unit, and one more tick schedules nothing |
| TypewriterHook.BasicTextHasOneUnitPerChar | src/hooks/use-typewriter.ts:31-32 | text without characters above U+FFFF has one code unit, and so one tick, per character |
| TranslatorComponent.Decide | src/components/translator.tsx:106-193 | blank text shows `''`; equal languages show the trimmed text; offline mode on shows a truthy cached value; the live call is made exactly when online and not served from the cache; otherwise `''` |
| TranslatorComponent.ShownTextHasASource | src/components/translator.tsx:106-139 | every text shown at once is empty, the trimmed input or the cached translation |
| TranslatorComponent.LanguageLabel | src/components/translator.tsx:160-161 | a code's label, or the code itself when no language or an empty label is found; empty exactly for the empty code |
| TranslatorComponent.CacheKeyIsNotHistoryKey | src/services/historyService.ts:7 | no cache key is the history key, and the history key is not a cache entry |
| TranslatorComponent.RecordsHistory | src/components/translator.tsx:163 | the guard holds exactly when both codes, the text and the result are non-empty, since a label falls back to its code |
| TranslatorComponent.SettleCachesOnlyInOfflineMode | src/components/translator.tsx:153-156 | a call made with offline mode off changes no key but the history key |
| TranslatorComponent.SettleCachesInOfflineMode | src/components/translator.tsx:153-156 | a call made with offline mode on leaves its result cached under its key unless the first write fails and the recovery does not complete |
| TranslatorComponent.SettleRecordsHistoryOnlyWithText | src/components/translator.tsx:159-186 | a failed call, or one with an empty result, leaves the history key as it was |
| TranslatorComponent.SettleAddsHistoryEntry | src/components/translator.tsx:159-172 | a successful call puts first an entry holding the trimmed text, the result, both codes and the labels, which fall back to the codes |
| TranslatorComponent.PersistResult | src/components/translator.tsx:153-175 | the cache write when offline mode was on, then the history entry under the guard; reports whether the cache write threw, in which case no entry is added |
| TranslatorComponent.AssembleTranscript | src/components/translator.tsx:313-324 | the loop from `resultIndex` gives the concatenated final transcripts, or the interim ones when the final ones are empty |
| TranslatorComponent.TranscriptFromFinalsOrInterims | src/components/translator.tsx:317-324 | the final (interim) text is empty exactly when every final (interim) segment says nothing |
| TranslatorComponent.SpeechErrorMessage | src/components/translator.tsx:329-338 | each of the four error codes gets its own message; every other code gets the unknown-error message |
| TranslatorComponent.Debounced | src/components/translator.tsx:201-207 | the effect schedules one job for the current inputs exactly when the text is not blank |
| TranslatorComponent.Translator.constructor | src/components/translator.tsx:37-51 | the screen starts with the default languages, empty texts, and nothing scheduled or in flight |
| TranslatorComponent.Translator.RunDebounceEffect | src/components/translator.tsx:196-214 | clears the timer, then schedules the current inputs for non-blank text, or clears the translation at once |
| TranslatorComponent.Translator.Rerender | src/components/translator.tsx:196-214 | the effect runs only when the text, a language, or the connectivity behind the callback changed |
| TranslatorComponent.Translator.EditSourceText | src/components/translator.tsx:216-218 | the text becomes the value; a changed text reschedules (or clears the translation when blank) |
| TranslatorComponent.Translator.SelectSourceLanguage | src/components/translator.tsx:428 | the source language becomes the value; a change reschedules |
| TranslatorComponent.Translator.SelectTargetLanguage | src/components/translator.tsx:505-510 | the target language becomes the value; a change reschedules |
| TranslatorComponent.Translator.ChooseSourceFromSheet | src/components/translator.tsx:486-495 | selects the source language and stops recording when a recognizer is running; a change reschedules, or clears the translation when the text is blank, and otherwise the job and the translation stay |
| TranslatorComponent.Translator.SetConnectivity | src/components/translator.tsx:193-214 | a change of connectivity or offline mode re-runs the effect, so a scheduled job uses the new values, or the translation is cleared when the text is blank; no change keeps the job and the translation |
| TranslatorComponent.Translator.HandleTranslate | src/components/translator.tsx:106-193 | shows the outcome of `Decide` on the cache reading, or queues the live call for the trimmed text; the cache read removes an entry it does not serve; nothing else changes |
| TranslatorComponent.Translator.FireDebounceTimer | src/components/translator.tsx:202-204 | the timer runs `handleTranslate` on the scheduled inputs, which are the current ones, and clears the slot |
| TranslatorComponent.Translator.FabTranslate | src/components/translator.tsx:87-103 | the button's event runs `handleTranslate` on the current inputs at once |
| TranslatorComponent.Translator.SettleLiveCall | src/components/translator.tsx:144-187 | any call in flight may settle; success shows the result, caches and records it (`SettledState`), and a thrown cache write clears it; failure clears the translation |
| TranslatorComponent.Translator.SwapLanguages | src/components/translator.tsx:220-242 | refused while translating, recording, or offline with offline mode off; otherwise exchanges the languages and makes the translation the new text; changed inputs reschedule, and the old translation stays on screen unless the new text is blank; unchanged inputs keep the job |
| TranslatorComponent.Translator.ClearText | src/components/translator.tsx:244-257 | empties both texts, stops recording, cancels the scheduled job; the languages stay |
| TranslatorComponent.Translator.ToggleRecording | src/components/translator.tsx:279-302 | refused offline or without speech support; a running recognizer is only asked to stop; otherwise a recognizer is created |
| TranslatorComponent.Translator.OnSpeechStart | src/components/translator.tsx:304-309 | recording starts and both texts are emptied |
| TranslatorComponent.Translator.OnSpeechResult | src/components/translator.tsx:313-325 | the text is replaced, not extended, by the assembled transcript; a change reschedules, or clears the translation when the transcript is blank; no change keeps the job and the translation |
| TranslatorComponent.Translator.OnSpeechEnd | src/components/translator.tsx:343-346 | recording stops; nothing else changes |
| TranslatorComponent.Translator.OnSpeechError | src/components/translator.tsx:327-341 | recording stops and the message for the error code is shown |
| TranslatorComponent.TypeAndWait | src/components/translator.tsx:196-214 | typing text and letting the timer fire, online with offline mode off, starts exactly one live call for the trimmed text; offline it clears the translation |

## Left out

- Browser speech recognition and speech synthesis become callbacks:
  - `OnSpeechStart`, `OnSpeechResult`, `OnSpeechError` and `OnSpeechEnd` are methods the recognizer calls;
  - `ToggleRecording` records only whether a recognizer exists;
  - `speechSynthesis.cancel()` and text-to-speech are not modelled.
- Toasts, console output, the clipboard and the theme are not modelled. Neither are the `isSwapping` animation flag, the settings page and the offline toast effect, because they do not change what is translated or stored.
- The live call (an LLM flow) is the `response` parameter of `SettleLiveCall`: a string on success, `None` when it throws.
- Waiting for the live call is modelled by `inFlight`, a list of calls started and not yet settled. `isTranslating` is `inFlight != []`. Calls settle in any order, and a late one still sets the translation: the source has no stale-response fencing. No "last request wins" property is stated.
- `Date.now()` and `crypto.randomUUID()` are parameters. One operation uses one `now` throughout, so the record's timestamp and the cleanup's clock are equal in `CacheTranslation`.
- Quota failures are flags, one per `setItem` that can throw.
  - `AddHistoryEntry` treats every failed first write as a quota error. The source enters the fallback only for a `QuotaExceededError`.
- JSON text is modelled as parsed values, and the empty string cannot be stored:
  - a stored value that does not parse is `Malformed`;
  - the source's `if (cachedItem)` miss on an empty stored string is not modelled;
  - history records with `null` elements or non-numeric timestamps are not modelled.
- `LocalStorage.Storage.RemoveItem`: the key order is fixed. A new key goes last, and after a removal the later keys move down one place. The Web Storage standard leaves the order of `key(i)` to the browser and keeps it stable only while the number of keys stays the same.
- `CacheService.SweepStoredEntries`: that no key is skipped by the `i--` walk is proved under this order only. Under another order, a removal can move an unvisited key below the cursor, and the walk then skips it.
- `parseInt` of the stamp reads a stored number. Any other value reads as NaN, which never holds the cleanup back. A stamp whose text starts with digits but does not parse as a number is not modelled.
- `toLowerCase` folds ASCII letters only.
- The stability of the history sort is not stated. The sort is specified as newest first and a permutation.
- The live translation and the improve flow (`src/ai/flows`), Firebase, the online-status hook and the translation panel's display flags are not part of this model.
- `isOnline` and `offlineModeEnabled` are fields set by `SetConnectivity`. This covers reading the setting at mount, the storage-event listener and the online-status hook.
- `HistoryService.CodeOrLookup`: an absent code is `None` and falls back to the lookup; a given code, the empty string included, is kept, as the spread copies it. A code passed explicitly as `undefined`, which the spread also copies over the looked-up code, is not modelled. The translator always passes both codes.
- `TranslatorComponent.Translator.FabTranslate`: uses the current connectivity and offline mode. In the source, `triggerTranslation` omits `handleTranslate` from its dependencies and may run an older callback with older values of both.
- `HistoryPanelComponent.HistoryPanel.SetOpen`: `fetchHistory` never rejects, so the panel's error message is never set and `error` stays `None`. The revert in `HandleToggleFavorite` is reached through its `rejected` parameter, for the same reason.
- `TypewriterHook.Typewriter.Shown`: the prefix property holds of the state once the effect has run. On the render that changes `text` the hook returns the previous `displayedText`, which is given only as `Render`'s `shown` and is in general no prefix of the new target (`RenderNewTarget`).
- `TypewriterHook.Typewriter.Tick`: assumes the updater passed to `setDisplayedText` reads `indexRef.current` before it is incremented. If React runs the updater later, it reads the next index.
- `LanguageSelector.FlagEmoji`: the flag literals in the source file are mis-encoded: UTF-8 bytes read as Windows-1252. The model uses the regional-indicator pairs they were written for, and the white flag U+1F3F3 U+FE0F.

## Findings

| source | as written | input that shows it | evidently intended | confidence | as-written member | corrected member |
|---|---|---|---|---|---|---|
| src/components/language-selector-sheet.tsx:26-28 | `flagEmojis[langCode]` reads through the object's prototype and the default is used only for a falsy result, so an inherited `Object.prototype` member is returned in place of a flag | `getFlagEmoji("constructor")` returns the `Object` constructor function | any code outside the 11 listed gets the default white flag | not executed | LanguageSelector.FlagLookupAsWritten (counterexample: LanguageSelector.ConstructorCodeGetsNoFlag) | LanguageSelector.FlagEmoji |
