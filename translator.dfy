/**
 * The translator screen: how a request is resolved (blank input, identical
 * languages, the offline cache, the live call), what settling a live call
 * does to the screen, the cache and the history, the 500 ms debounce of
 * edits, swapping and clearing, and the speech-input callbacks.
 */
module TranslatorComponent {
  import opened Common
  import opened Types
  import opened Languages
  import opened LocalStorage
  import opened CacheService
  import opened HistoryService

  // ---------------------------------------------------------------------------
  // Resolving a request
  // ---------------------------------------------------------------------------

  /** The inputs a translation is run for: the text and the two language codes. */
  datatype Job = Job(text: string, sourceLang: string, targetLang: string)

  /** A live call: the trimmed text, the codes, and whether offline mode was on when it was made. */
  datatype Request = Request(text: string, sourceLang: string, targetLang: string, offlineMode: bool)

  /** What `handleTranslate` does: show a text at once, or start a live call. */
  datatype Outcome = Show(text: string) | CallLive(request: Request)

  /** A cache answer JavaScript treats as a hit: present and non-empty. */
  predicate IsHit(cached: Option<string>) {
    cached.Some? && cached.value != []
  }

  /** `handleTranslate` reads the cache: there is text, the languages differ, and offline mode is on. */
  predicate NeedsCacheLookup(text: string, sourceLang: string, targetLang: string, offlineMode: bool) {
    !IsBlank(text) && sourceLang != targetLang && offlineMode
  }

  /**
   * The answer of the cache lookup `handleTranslate` makes on the storage
   * content `items` (`None` when there is no storage): only when
   * `NeedsCacheLookup` holds, under the key of the trimmed text.
   */
  function CacheReading(text: string, sourceLang: string, targetLang: string, offlineMode: bool,
                        items: Option<map<string, Item>>, now: int): Option<string>
  {
    if NeedsCacheLookup(text, sourceLang, targetLang, offlineMode) && items.Some?
    then CachedValue(items.value, GenerateCacheKey(Trim(text), sourceLang, targetLang), now)
    else None
  }

  /**
   * The decision chain of `handleTranslate`, given the answer of the cache
   * lookup it makes when offline mode is on.
   */
  function Decide(text: string, sourceLang: string, targetLang: string, isOnline: bool, offlineMode: bool,
                  cached: Option<string>): (o: Outcome)
    ensures IsBlank(text) ==> o == Show([])
    ensures !IsBlank(text) && sourceLang == targetLang ==> o == Show(Trim(text))
    ensures NeedsCacheLookup(text, sourceLang, targetLang, offlineMode) && IsHit(cached) ==> o == Show(cached.value)
    ensures NeedsCacheLookup(text, sourceLang, targetLang, offlineMode) && !isOnline && !IsHit(cached) ==> o == Show([])
    ensures !IsBlank(text) && sourceLang != targetLang && !isOnline && !offlineMode ==> o == Show([])
    ensures o.CallLive? <==>
              !IsBlank(text) && sourceLang != targetLang && isOnline && !(offlineMode && IsHit(cached))
    ensures o.CallLive? ==> o.request == Request(Trim(text), sourceLang, targetLang, offlineMode)
  {
    var trimmed := Trim(text);
    if trimmed == [] then Show([])
    else if sourceLang == targetLang then Show(trimmed)
    else if !isOnline && offlineMode then
      if IsHit(cached) then Show(cached.value) else Show([])
    else if offlineMode && IsHit(cached) then Show(cached.value)
    else if isOnline then CallLive(Request(trimmed, sourceLang, targetLang, offlineMode))
    else Show([])
  }

  /** Every text shown at once is empty, the trimmed input, or the cached translation. */
  lemma ShownTextHasASource(text: string, sourceLang: string, targetLang: string, isOnline: bool, offlineMode: bool,
                            cached: Option<string>)
    ensures var o := Decide(text, sourceLang, targetLang, isOnline, offlineMode, cached);
      o.Show? ==> o.text == [] || o.text == Trim(text) || (cached.Some? && o.text == cached.value)
  {
  }

  // ---------------------------------------------------------------------------
  // Settling a live call
  // ---------------------------------------------------------------------------

  /** `getLanguageByValue(code)?.label || code`: the English label, or the code itself. */
  function LanguageLabel(code: string): (r: string)
    ensures GetLanguageByValue(code).None? ==> r == code
    ensures r != code ==> GetLanguageByValue(code).Some? && r == GetLanguageByValue(code).value.displayLabel
    ensures r == [] <==> code == []
  {
    match GetLanguageByValue(code)
    case Some(lang) =>
      assert lang.value != [] by { SupportedCodesPlain(); }
      if lang.displayLabel != [] then lang.displayLabel else code
    case None => code
  }

  /** The history record a successful call asks to add: labels, trimmed text, result and both codes. */
  function HistoryData(request: Request, result: string): EntryData {
    EntryData(LanguageLabel(request.sourceLang), LanguageLabel(request.targetLang), request.text, result,
              Some(request.sourceLang), Some(request.targetLang))
  }

  /**
   * The guard before adding to the history: both labels, the text and the
   * result are non-empty. A label falls back to its code, so this holds
   * exactly when both codes, the text and the result are non-empty.
   */
  predicate RecordsHistory(request: Request, result: string): (r: bool)
    ensures r <==> request.sourceLang != [] && request.targetLang != [] && request.text != [] && result != []
  {
    LanguageLabel(request.sourceLang) != [] && LanguageLabel(request.targetLang) != [] && request.text != [] && result != []
  }

  /** The cache key of a request. */
  function RequestKey(request: Request): string {
    GenerateCacheKey(request.text, request.sourceLang, request.targetLang)
  }

  /** The cache write made for a successful call lets an exception escape into the call's `catch`. */
  predicate CacheWriteThrows(s: Snapshot, request: Request, result: string, now: int, cacheFaults: CacheWriteFaults) {
    request.offlineMode && CacheWriteEscapes(s, RequestKey(request), CacheRecord(result, now), now, cacheFaults)
  }

  /**
   * The storage content after a call settles with `response` (`None` when the
   * call threw): on success the result is cached if offline mode was on when
   * the call was made, then added to the history if the guard holds, unless
   * the cache write threw.
   */
  function SettledState(s: Snapshot, request: Request, response: Option<string>, now: int, newId: string,
                        cacheFaults: CacheWriteFaults, historyWriteFails: bool, historyRetryFails: bool): Snapshot
  {
    if response.None? then s
    else
      var result := response.value;
      var cached := if request.offlineMode
                    then CacheWriteResult(s, RequestKey(request), CacheRecord(result, now), now, cacheFaults)
                    else s;
      if CacheWriteThrows(s, request, result, now, cacheFaults) || !RecordsHistory(request, result) then cached
      else AddHistoryResult(cached, HistoryData(request, result), newId, now, historyWriteFails, historyRetryFails).state
  }

  /** No cache key is the history key: they differ at the twelfth character. */
  lemma CacheKeyIsNotHistoryKey(key: string)
    requires IsCacheEntryKey(key)
    ensures key != HistoryStorageKey && !IsCacheEntryKey(HistoryStorageKey)
  {
    assert key[11] == CachePrefix[11] == 'C';
    assert HistoryStorageKey[11] == 'H';
  }

  /** A call made with offline mode off writes nothing outside the history key. */
  lemma SettleCachesOnlyInOfflineMode(s: Snapshot, request: Request, response: Option<string>, now: int, newId: string,
                                      cacheFaults: CacheWriteFaults, h1: bool, h2: bool)
    requires !request.offlineMode
    ensures var r := SettledState(s, request, response, now, newId, cacheFaults, h1, h2);
      forall k :: k != HistoryStorageKey ==> (k in r.items <==> k in s.items) && (k in s.items ==> r.items[k] == s.items[k])
  {
    if response.Some? && RecordsHistory(request, response.value) {
      var added := AddHistoryResult(s, HistoryData(request, response.value), newId, now, h1, h2);
      AddTouchesOnlyHistory(s, HistoryData(request, response.value), newId, now, h1, h2);
      assert SettledState(s, request, response, now, newId, cacheFaults, h1, h2) == added.state;
    } else {
      assert SettledState(s, request, response, now, newId, cacheFaults, h1, h2) == s;
    }
  }

  /**
   * A call made with offline mode on leaves its result cached under its key
   * when the first cache write succeeds, or when it fails and neither the
   * forced cleanup's stamp nor the retry does.
   */
  lemma SettleCachesInOfflineMode(s: Snapshot, request: Request, result: string, now: int, newId: string,
                                  cacheFaults: CacheWriteFaults, h1: bool, h2: bool)
    requires request.offlineMode
    requires !cacheFaults.write || (!cacheFaults.forcedStamp && !cacheFaults.retry)
    ensures var r := SettledState(s, request, Some(result), now, newId, cacheFaults, h1, h2);
      RequestKey(request) in r.items && r.items[RequestKey(request)] == CacheRecord(result, now)
  {
    var key := RequestKey(request);
    var cached := CacheWriteResult(s, key, CacheRecord(result, now), now, cacheFaults);
    CacheWriteStoresRecord(s, request.text, request.sourceLang, request.targetLang, result, now, cacheFaults);
    assert key in cached.items && cached.items[key] == CacheRecord(result, now);
    if !CacheWriteThrows(s, request, result, now, cacheFaults) && RecordsHistory(request, result) {
      CacheKeyIsEntryKey(request.text, request.sourceLang, request.targetLang);
      CacheKeyIsNotHistoryKey(key);
      AddTouchesOnlyHistory(cached, HistoryData(request, result), newId, now, h1, h2);
    }
  }

  /** A failed call, or a successful one with an empty result, leaves the history key as it was. */
  lemma SettleRecordsHistoryOnlyWithText(s: Snapshot, request: Request, response: Option<string>, now: int, newId: string,
                                         cacheFaults: CacheWriteFaults, h1: bool, h2: bool)
    requires response.None? || response.value == []
    ensures var r := SettledState(s, request, response, now, newId, cacheFaults, h1, h2);
      (HistoryStorageKey in r.items <==> HistoryStorageKey in s.items)
      && (HistoryStorageKey in s.items ==> r.items[HistoryStorageKey] == s.items[HistoryStorageKey])
  {
    if response.Some? && request.offlineMode {
      CacheKeyIsEntryKey(request.text, request.sourceLang, request.targetLang);
      CacheKeyIsNotHistoryKey(RequestKey(request));
      CacheWriteFrame(s, RequestKey(request), CacheRecord(response.value, now), now, cacheFaults);
      assert HistoryStorageKey != LastCleanupKey;
    }
  }

  /**
   * A successful call whose writes all succeed puts a history entry first:
   * the trimmed text, the result, both codes, and the labels (the codes
   * where a code has no label).
   */
  lemma SettleAddsHistoryEntry(s: Snapshot, request: Request, result: string, now: int, newId: string,
                               cacheFaults: CacheWriteFaults)
    requires RecordsHistory(request, result) && !CacheWriteThrows(s, request, result, now, cacheFaults)
    ensures var r := SettledState(s, request, Some(result), now, newId, cacheFaults, false, false);
      && HistoryStorageKey in r.items && r.items[HistoryStorageKey].EntryList?
      && |r.items[HistoryStorageKey].entries| > 0
      && var e := r.items[HistoryStorageKey].entries[0];
         && e.id == newId && e.timestamp == now && !e.isFavorite
         && e.sourceText == request.text && e.targetText == result
         && e.sourceLanguage == LanguageLabel(request.sourceLang) && e.targetLanguage == LanguageLabel(request.targetLang)
         && e.sourceLanguageCode == Some(request.sourceLang) && e.targetLanguageCode == Some(request.targetLang)
  {
    var cached := if request.offlineMode
                  then CacheWriteResult(s, RequestKey(request), CacheRecord(result, now), now, cacheFaults)
                  else s;
    AddPutsNewestFirst(cached, HistoryData(request, result), newId, now, false);
  }

  /**
   * The storage side of a successful call: the cache write when offline mode
   * was on, then the history entry when the guard holds. Answers whether the
   * cache write let an exception escape, in which case no entry is added.
   */
  method PersistResult(store: Storage?, request: Request, result: string, now: int, newId: string,
                       cacheFaults: CacheWriteFaults, historyWriteFails: bool, historyRetryFails: bool)
    returns (escaped: bool)
    requires store != null ==> store.Valid()
    modifies store
    ensures store != null ==> store.Valid()
    ensures store == null ==> !escaped
    ensures store != null ==>
      && escaped == CacheWriteThrows(old(store.Current()), request, result, now, cacheFaults)
      && store.Current() == SettledState(old(store.Current()), request, Some(result), now, newId,
                                         cacheFaults, historyWriteFails, historyRetryFails)
  {
    escaped := false;
    if request.offlineMode {
      escaped := CacheTranslation(store, request.text, request.sourceLang, request.targetLang, result, now, cacheFaults);
      if escaped {
        return;
      }
    }
    if RecordsHistory(request, result) {
      var _ := AddHistoryEntry(store, HistoryData(request, result), newId, now, historyWriteFails, historyRetryFails);
    }
  }

  // ---------------------------------------------------------------------------
  // Speech input
  // ---------------------------------------------------------------------------

  /** One entry of `event.results`: whether it is final, and its best transcript. */
  datatype SpeechSegment = SpeechSegment(isFinal: bool, transcript: string)

  /** The final transcripts of `segments`, concatenated in order. */
  function FinalText(segments: seq<SpeechSegment>): string {
    if segments == [] then []
    else
      var last := segments[|segments| - 1];
      FinalText(segments[..|segments| - 1]) + (if last.isFinal then last.transcript else [])
  }

  /** The interim transcripts of `segments`, concatenated in order. */
  function InterimText(segments: seq<SpeechSegment>): string {
    if segments == [] then []
    else
      var last := segments[|segments| - 1];
      InterimText(segments[..|segments| - 1]) + (if last.isFinal then [] else last.transcript)
  }

  /** The final transcripts of two runs of segments are those of each, one after the other. */
  lemma {:induction false} FinalTextAppend(a: seq<SpeechSegment>, b: seq<SpeechSegment>)
    ensures FinalText(a + b) == FinalText(a) + FinalText(b)
  {
    if b != [] {
      assert (a + b)[..|a + b| - 1] == a + b[..|b| - 1];
      FinalTextAppend(a, b[..|b| - 1]);
    } else {
      assert a + b == a;
    }
  }

  /** The same for the interim transcripts. */
  lemma {:induction false} InterimTextAppend(a: seq<SpeechSegment>, b: seq<SpeechSegment>)
    ensures InterimText(a + b) == InterimText(a) + InterimText(b)
  {
    if b != [] {
      assert (a + b)[..|a + b| - 1] == a + b[..|b| - 1];
      InterimTextAppend(a, b[..|b| - 1]);
    } else {
      assert a + b == a;
    }
  }

  /** The segments from `resultIndex` on (none when it is past the end). */
  function FromIndex(results: seq<SpeechSegment>, resultIndex: nat): seq<SpeechSegment> {
    if resultIndex <= |results| then results[resultIndex..] else []
  }

  /**
   * `onresult`: walks the results from `resultIndex`, collecting final and
   * interim transcripts separately, and answers the final ones, or the
   * interim ones when the final ones are empty.
   */
  method AssembleTranscript(results: seq<SpeechSegment>, resultIndex: nat) returns (transcript: string)
    ensures var segments := FromIndex(results, resultIndex);
      transcript == if FinalText(segments) != [] then FinalText(segments) else InterimText(segments)
  {
    var interimTranscript := [];
    var finalTranscript := [];
    var i := resultIndex;
    while i < |results|
      invariant resultIndex <= i && (resultIndex <= |results| ==> i <= |results|)
      invariant i < |results| ==> resultIndex <= |results|
      invariant resultIndex <= |results| ==> finalTranscript == FinalText(results[resultIndex..i])
      invariant resultIndex <= |results| ==> interimTranscript == InterimText(results[resultIndex..i])
      invariant resultIndex > |results| ==> finalTranscript == [] && interimTranscript == []
    {
      assert results[resultIndex..i + 1] == results[resultIndex..i] + [results[i]];
      FinalTextAppend(results[resultIndex..i], [results[i]]);
      InterimTextAppend(results[resultIndex..i], [results[i]]);
      if results[i].isFinal {
        finalTranscript := finalTranscript + results[i].transcript;
      } else {
        interimTranscript := interimTranscript + results[i].transcript;
      }
      i := i + 1;
    }
    if resultIndex <= |results| {
      assert results[resultIndex..i] == results[resultIndex..];
    }
    transcript := if finalTranscript != [] then finalTranscript else interimTranscript;
  }

  /**
   * The transcript is made of the segments from `resultIndex` only: the
   * final ones when any of them says something, the interim ones otherwise.
   */
  lemma {:induction false} TranscriptFromFinalsOrInterims(segments: seq<SpeechSegment>)
    ensures (forall k :: 0 <= k < |segments| && segments[k].isFinal ==> segments[k].transcript == []) <==> FinalText(segments) == []
    ensures (forall k :: 0 <= k < |segments| && !segments[k].isFinal ==> segments[k].transcript == []) <==> InterimText(segments) == []
  {
    if segments != [] {
      var init, last := segments[..|segments| - 1], segments[|segments| - 1];
      TranscriptFromFinalsOrInterims(init);
      assert forall k :: 0 <= k < |init| ==> init[k] == segments[k];
      assert FinalText(segments) == FinalText(init) + (if last.isFinal then last.transcript else []);
      assert InterimText(segments) == InterimText(init) + (if last.isFinal then [] else last.transcript);
    }
  }

  const NoSpeechMessage: string := "No speech detected. Please try again."
  const AudioCaptureMessage: string := "Microphone error. Check permissions and hardware."
  const NotAllowedMessage: string := "Permission denied. Please allow microphone access."
  const NetworkMessage: string := "Network error during speech recognition."
  const UnknownSpeechErrorMessage: string := "An unknown error occurred during speech recognition."

  /** The four recognised error codes of `onerror`. */
  predicate IsKnownSpeechError(error: string) {
    error == "no-speech" || error == "audio-capture" || error == "not-allowed" || error == "network"
  }

  /** The message `onerror` shows for an error code. */
  function SpeechErrorMessage(error: string): (message: string)
    ensures message == UnknownSpeechErrorMessage <==> !IsKnownSpeechError(error)
    ensures error == "no-speech" ==> message == NoSpeechMessage
    ensures error == "audio-capture" ==> message == AudioCaptureMessage
    ensures error == "not-allowed" ==> message == NotAllowedMessage
    ensures error == "network" ==> message == NetworkMessage
  {
    if error == "no-speech" then NoSpeechMessage
    else if error == "audio-capture" then AudioCaptureMessage
    else if error == "not-allowed" then NotAllowedMessage
    else if error == "network" then NetworkMessage
    else UnknownSpeechErrorMessage
  }

  // ---------------------------------------------------------------------------
  // The component
  // ---------------------------------------------------------------------------

  /** What the debounce effect leaves pending for the inputs: one job for non-blank text, none otherwise. */
  function Debounced(text: string, sourceLang: string, targetLang: string): (pending: Option<Job>)
    ensures pending.Some? <==> !IsBlank(text)
    ensures pending.Some? ==> pending.value == Job(text, sourceLang, targetLang)
  {
    if !IsBlank(text) then Some(Job(text, sourceLang, targetLang)) else None
  }

  class Translator {
    var sourceLanguage: string
    var targetLanguage: string
    var sourceText: string
    var translatedText: string
    /** The debounce timer (`translationTimeoutRef`): the job it will run, if one is scheduled. */
    var pending: Option<Job>
    /** Live calls started and not yet settled; the screen is translating while there is one. */
    var inFlight: seq<Request>
    var isRecording: bool
    /** A recognizer has been created (`recognitionRef.current` is set). */
    var hasRecognizer: bool
    var isOnline: bool
    var offlineModeEnabled: bool
    /** The browser storage the cache and the history live in, `null` when it is unavailable. */
    const store: Storage?

    /** The storage is well formed, and a scheduled job is for the current, non-blank inputs. */
    ghost predicate Valid()
      reads this, store
    {
      (store != null ==> store.Valid())
      && (pending.Some? ==> pending.value == Job(sourceText, sourceLanguage, targetLanguage) && !IsBlank(sourceText))
    }

    /** The current inputs. */
    function Inputs(): Job
      reads this
    {
      Job(sourceText, sourceLanguage, targetLanguage)
    }

    /** Mounting: the default languages, empty texts, nothing scheduled or in flight. */
    constructor (store: Storage?, isOnline: bool, offlineModeEnabled: bool)
      requires store != null ==> store.Valid()
      ensures Valid() && this.store == store
      ensures sourceLanguage == DefaultSourceLanguage && targetLanguage == DefaultTargetLanguage
      ensures sourceText == [] && translatedText == [] && pending.None? && inFlight == []
      ensures !isRecording && !hasRecognizer
      ensures this.isOnline == isOnline && this.offlineModeEnabled == offlineModeEnabled
    {
      this.store := store;
      sourceLanguage, targetLanguage := DefaultSourceLanguage, DefaultTargetLanguage;
      sourceText, translatedText := [], [];
      pending, inFlight := None, [];
      isRecording, hasRecognizer := false, false;
      this.isOnline, this.offlineModeEnabled := isOnline, offlineModeEnabled;
    }

    /**
     * The debounce effect, run after a render in which the text, a language
     * or the translate callback changed: clears the timer, then schedules
     * one job for non-blank text or clears the translation at once.
     */
    method RunDebounceEffect()
      modifies this
      ensures pending == Debounced(sourceText, sourceLanguage, targetLanguage)
      ensures translatedText == if IsBlank(sourceText) then [] else old(translatedText)
      ensures sourceText == old(sourceText) && sourceLanguage == old(sourceLanguage) && targetLanguage == old(targetLanguage)
      ensures inFlight == old(inFlight) && isRecording == old(isRecording) && hasRecognizer == old(hasRecognizer)
      ensures isOnline == old(isOnline) && offlineModeEnabled == old(offlineModeEnabled)
    {
      pending := None;
      if !IsBlank(sourceText) {
        pending := Some(Job(sourceText, sourceLanguage, targetLanguage));
      } else {
        translatedText := [];
      }
    }

    /** Re-renders after a state change: the effect runs only when one of its dependencies changed. */
    method Rerender(before: Job, onlineBefore: bool, offlineModeBefore: bool)
      requires store != null ==> store.Valid()
      requires pending.Some? ==> pending.value == before && !IsBlank(before.text)
      modifies this
      ensures Valid()
      ensures var changed := Inputs() != before || isOnline != onlineBefore || offlineModeEnabled != offlineModeBefore;
        && pending == (if changed then Debounced(sourceText, sourceLanguage, targetLanguage) else old(pending))
        && translatedText == (if changed && IsBlank(sourceText) then [] else old(translatedText))
      ensures sourceText == old(sourceText) && sourceLanguage == old(sourceLanguage) && targetLanguage == old(targetLanguage)
      ensures inFlight == old(inFlight) && isRecording == old(isRecording) && hasRecognizer == old(hasRecognizer)
      ensures isOnline == old(isOnline) && offlineModeEnabled == old(offlineModeEnabled)
    {
      if Inputs() != before || isOnline != onlineBefore || offlineModeEnabled != offlineModeBefore {
        RunDebounceEffect();
      }
    }

    /** `handleSourceTextChange`: the text becomes `value`, and the effect re-runs if it changed. */
    method EditSourceText(value: string)
      requires Valid()
      modifies this
      ensures Valid()
      ensures sourceText == value && sourceLanguage == old(sourceLanguage) && targetLanguage == old(targetLanguage)
      ensures value != old(sourceText) ==> pending == Debounced(value, sourceLanguage, targetLanguage)
      ensures value == old(sourceText) ==> pending == old(pending) && translatedText == old(translatedText)
      ensures value != old(sourceText) ==> translatedText == if IsBlank(value) then [] else old(translatedText)
      ensures inFlight == old(inFlight) && isRecording == old(isRecording) && hasRecognizer == old(hasRecognizer)
      ensures isOnline == old(isOnline) && offlineModeEnabled == old(offlineModeEnabled)
    {
      var before := Inputs();
      sourceText := value;
      Rerender(before, isOnline, offlineModeEnabled);
    }

    /** The source selector's `onLanguageChange`: the source language becomes `value`. */
    method SelectSourceLanguage(value: string)
      requires Valid()
      modifies this
      ensures Valid()
      ensures sourceLanguage == value && sourceText == old(sourceText) && targetLanguage == old(targetLanguage)
      ensures value != old(sourceLanguage) ==> pending == Debounced(sourceText, value, targetLanguage)
      ensures value == old(sourceLanguage) ==> pending == old(pending) && translatedText == old(translatedText)
      ensures value != old(sourceLanguage) ==> translatedText == if IsBlank(sourceText) then [] else old(translatedText)
      ensures inFlight == old(inFlight) && isRecording == old(isRecording) && hasRecognizer == old(hasRecognizer)
      ensures isOnline == old(isOnline) && offlineModeEnabled == old(offlineModeEnabled)
    {
      var before := Inputs();
      sourceLanguage := value;
      Rerender(before, isOnline, offlineModeEnabled);
    }

    /** The target selector's `onLanguageChange`: the target language becomes `value`. */
    method SelectTargetLanguage(value: string)
      requires Valid()
      modifies this
      ensures Valid()
      ensures targetLanguage == value && sourceText == old(sourceText) && sourceLanguage == old(sourceLanguage)
      ensures value != old(targetLanguage) ==> pending == Debounced(sourceText, sourceLanguage, value)
      ensures value == old(targetLanguage) ==> pending == old(pending) && translatedText == old(translatedText)
      ensures value != old(targetLanguage) ==> translatedText == if IsBlank(sourceText) then [] else old(translatedText)
      ensures inFlight == old(inFlight) && isRecording == old(isRecording) && hasRecognizer == old(hasRecognizer)
      ensures isOnline == old(isOnline) && offlineModeEnabled == old(offlineModeEnabled)
    {
      var before := Inputs();
      targetLanguage := value;
      Rerender(before, isOnline, offlineModeEnabled);
    }

    /**
     * The source sheet's `onSelectLanguage`: selects the language and stops a
     * running recognizer.
     */
    method ChooseSourceFromSheet(value: string)
      requires Valid()
      modifies this
      ensures Valid()
      ensures sourceLanguage == value && sourceText == old(sourceText) && targetLanguage == old(targetLanguage)
      ensures value != old(sourceLanguage) ==> pending == Debounced(sourceText, value, targetLanguage)
      ensures value == old(sourceLanguage) ==> pending == old(pending) && translatedText == old(translatedText)
      ensures value != old(sourceLanguage) ==> translatedText == if IsBlank(sourceText) then [] else old(translatedText)
      ensures isRecording == (old(isRecording) && !hasRecognizer)
      ensures inFlight == old(inFlight) && hasRecognizer == old(hasRecognizer)
      ensures isOnline == old(isOnline) && offlineModeEnabled == old(offlineModeEnabled)
    {
      SelectSourceLanguage(value);
      if hasRecognizer && isRecording {
        isRecording := false;           // the recognizer is stopped
      }
    }

    /**
     * The connection or the offline-mode setting changes. Both are
     * dependencies of the translate callback, so a change re-runs the
     * effect and a scheduled job will use the new values.
     */
    method SetConnectivity(online: bool, offlineMode: bool)
      requires Valid()
      modifies this
      ensures Valid()
      ensures isOnline == online && offlineModeEnabled == offlineMode && Inputs() == old(Inputs())
      ensures (online != old(isOnline) || offlineMode != old(offlineModeEnabled)) ==>
                pending == Debounced(sourceText, sourceLanguage, targetLanguage)
      ensures (online != old(isOnline) || offlineMode != old(offlineModeEnabled)) ==>
                translatedText == if IsBlank(sourceText) then [] else old(translatedText)
      ensures (online == old(isOnline) && offlineMode == old(offlineModeEnabled)) ==>
                pending == old(pending) && translatedText == old(translatedText)
      ensures inFlight == old(inFlight) && isRecording == old(isRecording) && hasRecognizer == old(hasRecognizer)
    {
      var before, onlineBefore, offlineModeBefore := Inputs(), isOnline, offlineModeEnabled;
      isOnline, offlineModeEnabled := online, offlineMode;
      Rerender(before, onlineBefore, offlineModeBefore);
    }

    /**
     * `handleTranslate(text, sourceLang, targetLang)`: resolves the request
     * by `Decide`, looking in the cache when offline mode is on, and either
     * shows the answer or starts a live call.
     */
    method HandleTranslate(text: string, sourceLang: string, targetLang: string, now: int)
      requires Valid()
      modifies this, store
      ensures Valid()
      ensures var o := Decide(text, sourceLang, targetLang, isOnline, offlineModeEnabled,
                              CacheReading(text, sourceLang, targetLang, offlineModeEnabled,
                                           if store != null then Some(old(store.items)) else None, now));
        && (o.Show? ==> translatedText == o.text && inFlight == old(inFlight))
        && (o.CallLive? ==> translatedText == old(translatedText) && inFlight == old(inFlight) + [o.request])
      ensures store != null ==>
        store.Current() == if NeedsCacheLookup(text, sourceLang, targetLang, offlineModeEnabled)
                           then AfterLookup(old(store.Current()), GenerateCacheKey(Trim(text), sourceLang, targetLang), now)
                           else old(store.Current())
      ensures Inputs() == old(Inputs()) && pending == old(pending)
      ensures isRecording == old(isRecording) && hasRecognizer == old(hasRecognizer)
      ensures isOnline == old(isOnline) && offlineModeEnabled == old(offlineModeEnabled)
    {
      var trimmedSourceText := Trim(text);
      if trimmedSourceText == [] {
        translatedText := [];
        return;
      }
      if sourceLang == targetLang {
        translatedText := trimmedSourceText;
        return;
      }
      if !isOnline && offlineModeEnabled {
        var cached := GetCachedTranslation(store, trimmedSourceText, sourceLang, targetLang, now);
        if IsHit(cached) {
          translatedText := cached.value;
        } else {
          translatedText := [];
        }
        return;
      }
      if offlineModeEnabled {
        var cached := GetCachedTranslation(store, trimmedSourceText, sourceLang, targetLang, now);
        if IsHit(cached) {
          translatedText := cached.value;
          return;
        }
      }
      if isOnline {
        inFlight := inFlight + [Request(trimmedSourceText, sourceLang, targetLang, offlineModeEnabled)];
      } else {
        translatedText := [];
      }
    }

    /** The debounce timer fires: the scheduled job runs `handleTranslate` on the inputs it was scheduled for. */
    method FireDebounceTimer(now: int)
      requires Valid() && pending.Some?
      modifies this, store
      ensures Valid() && pending.None?
      ensures Inputs() == old(Inputs())
      ensures var o := Decide(sourceText, sourceLanguage, targetLanguage, isOnline, offlineModeEnabled,
                              CacheReading(sourceText, sourceLanguage, targetLanguage, offlineModeEnabled,
                                           if store != null then Some(old(store.items)) else None, now));
        && (o.Show? ==> translatedText == o.text && inFlight == old(inFlight))
        && (o.CallLive? ==> translatedText == old(translatedText) && inFlight == old(inFlight) + [o.request])
      ensures isRecording == old(isRecording) && hasRecognizer == old(hasRecognizer)
      ensures isOnline == old(isOnline) && offlineModeEnabled == old(offlineModeEnabled)
    {
      var job := pending.value;
      pending := None;
      HandleTranslate(job.text, job.sourceLang, job.targetLang, now);
    }

    /** The translate button's event: `handleTranslate` on the current inputs, at once. */
    method FabTranslate(now: int)
      requires Valid()
      modifies this, store
      ensures Valid() && Inputs() == old(Inputs()) && pending == old(pending)
      ensures var o := Decide(sourceText, sourceLanguage, targetLanguage, isOnline, offlineModeEnabled,
                              CacheReading(sourceText, sourceLanguage, targetLanguage, offlineModeEnabled,
                                           if store != null then Some(old(store.items)) else None, now));
        && (o.Show? ==> translatedText == o.text && inFlight == old(inFlight))
        && (o.CallLive? ==> translatedText == old(translatedText) && inFlight == old(inFlight) + [o.request])
      ensures isRecording == old(isRecording) && hasRecognizer == old(hasRecognizer)
      ensures isOnline == old(isOnline) && offlineModeEnabled == old(offlineModeEnabled)
    {
      HandleTranslate(sourceText, sourceLanguage, targetLanguage, now);
    }

    /**
     * The live call `inFlight[k]` settles with `response` (`None` when it
     * threw). Calls can settle in any order, and a late one still sets the
     * translation. On success the result is shown, cached if offline mode was
     * on when the call was made, and added to the history; if the cache write
     * throws, the `catch` clears the translation and nothing more happens.
     */
    method SettleLiveCall(k: nat, response: Option<string>, now: int, newId: string,
                          cacheFaults: CacheWriteFaults, historyWriteFails: bool, historyRetryFails: bool)
      requires Valid() && k < |inFlight|
      modifies this, store
      ensures Valid()
      ensures inFlight == old(inFlight[..k] + inFlight[k + 1..])
      ensures response.None? ==> translatedText == []
      ensures response.Some? && store == null ==> translatedText == response.value
      ensures response.Some? && store != null ==>
        translatedText == if CacheWriteThrows(old(store.Current()), old(inFlight[k]), response.value, now, cacheFaults)
                          then [] else response.value
      ensures store != null ==>
        store.Current() == SettledState(old(store.Current()), old(inFlight[k]), response, now, newId,
                                        cacheFaults, historyWriteFails, historyRetryFails)
      ensures Inputs() == old(Inputs()) && pending == old(pending)
      ensures isRecording == old(isRecording) && hasRecognizer == old(hasRecognizer)
      ensures isOnline == old(isOnline) && offlineModeEnabled == old(offlineModeEnabled)
    {
      var request := inFlight[k];
      inFlight := inFlight[..k] + inFlight[k + 1..];
      if response.None? {
        translatedText := [];           // catch: the call threw
        return;
      }
      var result := response.value;
      translatedText := result;
      var escaped := PersistResult(store, request, result, now, newId, cacheFaults, historyWriteFails, historyRetryFails);
      if escaped {
        translatedText := [];           // catch: the cache write threw
      }
    }

    /**
     * `handleSwapLanguages`: refused while translating, while recording, or
     * offline with offline mode off; otherwise stops the recognizer,
     * exchanges the languages and makes the translation the new source text.
     */
    method SwapLanguages()
      requires Valid()
      modifies this
      ensures Valid()
      ensures old(inFlight != [] || isRecording || (!isOnline && !offlineModeEnabled)) ==>
        Inputs() == old(Inputs()) && translatedText == old(translatedText) && pending == old(pending)
        && isRecording == old(isRecording)
      ensures !old(inFlight != [] || isRecording || (!isOnline && !offlineModeEnabled)) ==>
        && sourceLanguage == old(targetLanguage) && targetLanguage == old(sourceLanguage)
        && sourceText == old(translatedText)
        && (Inputs() != old(Inputs()) ==> pending == Debounced(sourceText, sourceLanguage, targetLanguage))
        && (Inputs() == old(Inputs()) ==> pending == old(pending))
        && translatedText == (if Inputs() != old(Inputs()) && IsBlank(sourceText) then [] else old(translatedText))
        && !isRecording
      ensures inFlight == old(inFlight) && hasRecognizer == old(hasRecognizer)
      ensures isOnline == old(isOnline) && offlineModeEnabled == old(offlineModeEnabled)
    {
      if inFlight != [] || isRecording || (!isOnline && !offlineModeEnabled) {
        return;
      }
      var before := Inputs();
      var currentTranslatedText := translatedText;
      var currentSourceLang, currentTargetLang := sourceLanguage, targetLanguage;
      if hasRecognizer {
        isRecording := false;           // the recognizer is stopped
      }
      sourceLanguage := currentTargetLang;
      targetLanguage := currentSourceLang;
      sourceText := currentTranslatedText;
      Rerender(before, isOnline, offlineModeEnabled);
    }

    /** `handleClearText`: empties both texts, stops the recognizer, and cancels the scheduled job. */
    method ClearText()
      requires Valid()
      modifies this
      ensures Valid()
      ensures sourceText == [] && translatedText == [] && pending.None?
      ensures sourceLanguage == old(sourceLanguage) && targetLanguage == old(targetLanguage)
      ensures isRecording == (old(isRecording) && !hasRecognizer)
      ensures inFlight == old(inFlight) && hasRecognizer == old(hasRecognizer)
      ensures isOnline == old(isOnline) && offlineModeEnabled == old(offlineModeEnabled)
    {
      var before := Inputs();
      sourceText := [];
      translatedText := [];
      if hasRecognizer {
        isRecording := false;
      }
      pending := None;                  // clearTimeout
      Rerender(before, isOnline, offlineModeEnabled);
    }

    /**
     * `handleToggleRecording`, without the browser: refused offline or
     * without speech support; a running recognizer is asked to stop (its
     * `onend` follows); otherwise a new recognizer is created and started.
     */
    method ToggleRecording(speechSupported: bool)
      requires Valid()
      modifies this
      ensures Valid()
      ensures hasRecognizer == (old(hasRecognizer) || (isOnline && speechSupported && !(isRecording && old(hasRecognizer))))
      ensures Inputs() == old(Inputs()) && translatedText == old(translatedText) && pending == old(pending)
      ensures inFlight == old(inFlight) && isRecording == old(isRecording)
      ensures isOnline == old(isOnline) && offlineModeEnabled == old(offlineModeEnabled)
    {
      if !isOnline || !speechSupported {
        return;
      }
      if isRecording && hasRecognizer {
        return;                         // stop(); `onend` will follow
      }
      hasRecognizer := true;            // a new recognizer, started
    }

    /** `onstart`: recording begins and both texts are emptied. */
    method OnSpeechStart()
      requires Valid()
      modifies this
      ensures Valid()
      ensures isRecording && sourceText == [] && translatedText == [] && pending.None?
      ensures sourceLanguage == old(sourceLanguage) && targetLanguage == old(targetLanguage)
      ensures inFlight == old(inFlight) && hasRecognizer == old(hasRecognizer)
      ensures isOnline == old(isOnline) && offlineModeEnabled == old(offlineModeEnabled)
    {
      var before := Inputs();
      isRecording := true;
      sourceText := [];
      translatedText := [];
      if before != Inputs() {
        RunDebounceEffect();
      }
    }

    /** `onresult`: the source text is replaced, not extended, by the transcript of the new results. */
    method OnSpeechResult(results: seq<SpeechSegment>, resultIndex: nat)
      requires Valid()
      modifies this
      ensures Valid()
      ensures var segments := FromIndex(results, resultIndex);
        sourceText == if FinalText(segments) != [] then FinalText(segments) else InterimText(segments)
      ensures sourceText != old(sourceText) ==> pending == Debounced(sourceText, sourceLanguage, targetLanguage)
      ensures sourceText == old(sourceText) ==> pending == old(pending) && translatedText == old(translatedText)
      ensures sourceText != old(sourceText) ==> translatedText == if IsBlank(sourceText) then [] else old(translatedText)
      ensures sourceLanguage == old(sourceLanguage) && targetLanguage == old(targetLanguage)
      ensures inFlight == old(inFlight) && isRecording == old(isRecording) && hasRecognizer == old(hasRecognizer)
      ensures isOnline == old(isOnline) && offlineModeEnabled == old(offlineModeEnabled)
    {
      var transcript := AssembleTranscript(results, resultIndex);
      EditSourceText(transcript);
    }

    /** `onend`: recording stops; the edit effect has already scheduled the translation. */
    method OnSpeechEnd()
      requires Valid()
      modifies this
      ensures Valid() && !isRecording
      ensures Inputs() == old(Inputs()) && translatedText == old(translatedText) && pending == old(pending)
      ensures inFlight == old(inFlight) && hasRecognizer == old(hasRecognizer)
      ensures isOnline == old(isOnline) && offlineModeEnabled == old(offlineModeEnabled)
    {
      isRecording := false;
    }

    /** `onerror`: recording stops and the message for the error code is shown. */
    method OnSpeechError(error: string) returns (message: string)
      requires Valid()
      modifies this
      ensures Valid() && !isRecording
      ensures message == SpeechErrorMessage(error)
      ensures Inputs() == old(Inputs()) && translatedText == old(translatedText) && pending == old(pending)
      ensures inFlight == old(inFlight) && hasRecognizer == old(hasRecognizer)
      ensures isOnline == old(isOnline) && offlineModeEnabled == old(offlineModeEnabled)
    {
      message := UnknownSpeechErrorMessage;
      if error == "no-speech" {
        message := NoSpeechMessage;
      } else if error == "audio-capture" {
        message := AudioCaptureMessage;
      } else if error == "not-allowed" {
        message := NotAllowedMessage;
      } else if error == "network" {
        message := NetworkMessage;
      }
      isRecording := false;
    }
  }

  /**
   * Typing text and letting the timer fire, online with offline mode off
   * and different languages, starts exactly one live call for the trimmed
   * text; offline with offline mode off, it clears the translation instead.
   */
  method TypeAndWait(t: Translator, text: string, now: int)
    requires t.Valid() && t.sourceLanguage != t.targetLanguage && !t.offlineModeEnabled
    requires !IsBlank(text) && text != t.sourceText
    modifies t, t.store
    ensures t.Valid() && t.pending.None? && t.sourceText == text
    ensures t.isOnline ==>
      t.inFlight == old(t.inFlight) + [Request(Trim(text), t.sourceLanguage, t.targetLanguage, false)]
    ensures !t.isOnline ==> t.inFlight == old(t.inFlight) && t.translatedText == []
  {
    t.EditSourceText(text);
    t.FireDebounceTimer(now);
  }
}
