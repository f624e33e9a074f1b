/**
 * The translation history kept in `localStorage` under one key: a list of
 * at most 50 entries, newest first. Reading drops incomplete records and
 * sorts by timestamp; a corrupt value is removed. Adding validates the new
 * entry, puts it in front and truncates; when the write exceeds the quota
 * the newest 25 are kept and the entry is put in front of them. Favourites
 * are toggled by id.
 */
module HistoryService {
  import opened Common
  import opened Types
  import opened Languages
  import opened LocalStorage

  const HistoryStorageKey: string := "translationHistory"
  const MaxHistoryItems: nat := 50

  // ---------------------------------------------------------------------------
  // Reading
  // ---------------------------------------------------------------------------

  /** The validation of `fetchHistory`: id, timestamp, both labels and both texts are truthy. */
  predicate IsComplete(e: TranslationEntry) {
    e.id != [] && e.timestamp != 0 && e.sourceLanguage != [] && e.targetLanguage != []
    && e.sourceText != [] && e.targetText != []
  }

  /** `entries.filter(...)`: the complete entries, in their stored order. */
  function CompleteEntries(entries: seq<TranslationEntry>): (r: seq<TranslationEntry>)
    ensures |r| <= |entries|
    ensures forall k :: 0 <= k < |r| ==> IsComplete(r[k])
    ensures forall e :: e in r <==> e in entries && IsComplete(e)
    ensures (forall k :: 0 <= k < |entries| ==> IsComplete(entries[k])) ==> r == entries
    ensures Subsequence(r, entries)
  {
    if entries == [] then []
    else
      var head, tail := entries[0], entries[1..];
      var rest := CompleteEntries(tail);
      assert entries == [head] + tail;
      assert forall k :: 0 <= k < |tail| ==> tail[k] == entries[k + 1];
      if IsComplete(head) then
        var r := [head] + rest;
        assert r[1..] == rest;
        r
      else rest
  }

  /** The filter keeps every complete entry as often as it is stored, and no other entry. */
  lemma {:induction false} CompleteEntriesCounts(entries: seq<TranslationEntry>, e: TranslationEntry)
    ensures multiset(CompleteEntries(entries))[e] == if IsComplete(e) then multiset(entries)[e] else 0
  {
    if entries != [] {
      var head, tail := entries[0], entries[1..];
      CompleteEntriesCounts(tail, e);
      assert entries == [head] + tail;
      assert multiset(entries) == multiset{head} + multiset(tail);
      if IsComplete(head) {
        assert CompleteEntries(entries) == [head] + CompleteEntries(tail);
        assert multiset(CompleteEntries(entries)) == multiset{head} + multiset(CompleteEntries(tail));
      }
    }
  }

  /** Ordered by timestamp, newest first (`(a, b) => b.timestamp - a.timestamp`). */
  predicate NewestFirst(s: seq<TranslationEntry>) {
    forall i, j :: 0 <= i < j < |s| ==> s[i].timestamp >= s[j].timestamp
  }

  /** An entry at least as new as the head of a newest-first list can go in front of it. */
  lemma ConsNewestFirst(x: TranslationEntry, rest: seq<TranslationEntry>)
    requires NewestFirst(rest) && (rest == [] || rest[0].timestamp <= x.timestamp)
    ensures NewestFirst([x] + rest)
  {
    var r := [x] + rest;
    forall i, j | 0 <= i < j < |r| ensures r[i].timestamp >= r[j].timestamp {
      assert r[j] == rest[j - 1];
      if i > 0 {
        assert r[i] == rest[i - 1];
      }
    }
  }

  /** Places `e` before the first entry not newer than it, so entries of equal time keep their order. */
  function InsertNewestFirst(e: TranslationEntry, s: seq<TranslationEntry>): (r: seq<TranslationEntry>)
    requires NewestFirst(s)
    ensures NewestFirst(r)
    ensures multiset(r) == multiset(s) + multiset{e}
    ensures |r| == |s| + 1
    ensures r[0] == e || (s != [] && r[0] == s[0])
  {
    if s == [] || s[0].timestamp <= e.timestamp then
      ConsNewestFirst(e, s);
      [e] + s
    else
      var rest := InsertNewestFirst(e, s[1..]);
      assert s == [s[0]] + s[1..];
      assert multiset([s[0]] + rest) == multiset{s[0]} + multiset(rest);
      ConsNewestFirst(s[0], rest);
      [s[0]] + rest
  }

  /** `.sort((a, b) => b.timestamp - a.timestamp)`: a stable sort, newest first. */
  function SortNewestFirst(s: seq<TranslationEntry>): (r: seq<TranslationEntry>)
    ensures NewestFirst(r)
    ensures multiset(r) == multiset(s)
    ensures |r| == |s|
  {
    if s == [] then []
    else
      assert s == [s[0]] + s[1..];
      InsertNewestFirst(s[0], SortNewestFirst(s[1..]))
  }

  /** Sorting a list that is already newest first leaves it as it is. */
  lemma {:induction false} SortSortedIsIdentity(s: seq<TranslationEntry>)
    requires NewestFirst(s)
    ensures SortNewestFirst(s) == s
  {
    if s != [] {
      assert NewestFirst(s[1..]);
      SortSortedIsIdentity(s[1..]);
      assert s == [s[0]] + s[1..];
    }
  }

  /** The stored value is present but is not a list of records (text that does not parse, or another JSON value). */
  predicate HistoryCorrupt(items: map<string, Item>) {
    HistoryStorageKey in items && !items[HistoryStorageKey].EntryList?
  }

  /** What `fetchHistory` returns for the storage content `items`. */
  function StoredHistory(items: map<string, Item>): seq<TranslationEntry> {
    if HistoryStorageKey in items && items[HistoryStorageKey].EntryList?
    then SortNewestFirst(CompleteEntries(items[HistoryStorageKey].entries))
    else []
  }

  /** The storage content `fetchHistory` leaves: a corrupt value is removed, anything else is left alone. */
  function AfterFetch(s: Snapshot): Snapshot {
    if HistoryCorrupt(s.items) then Snapshot(Without(s.keys, HistoryStorageKey), s.items - {HistoryStorageKey})
    else s
  }

  /**
   * The fetched history holds complete entries only, newest first, each one
   * stored; and every stored complete entry is fetched.
   */
  lemma FetchedHistoryIsValid(items: map<string, Item>)
    ensures NewestFirst(StoredHistory(items))
    ensures forall k :: 0 <= k < |StoredHistory(items)| ==> IsComplete(StoredHistory(items)[k])
    ensures HistoryStorageKey in items && items[HistoryStorageKey].EntryList? ==>
      multiset(StoredHistory(items)) == multiset(CompleteEntries(items[HistoryStorageKey].entries))
    ensures !(HistoryStorageKey in items && items[HistoryStorageKey].EntryList?) ==> StoredHistory(items) == []
  {
    var h := StoredHistory(items);
    if HistoryStorageKey in items && items[HistoryStorageKey].EntryList? {
      var c := CompleteEntries(items[HistoryStorageKey].entries);
      forall k | 0 <= k < |h| ensures IsComplete(h[k]) {
        assert h[k] in multiset(c);
      }
    }
  }

  /** Fetching again changes nothing more and returns the same history. */
  lemma FetchIsStable(s: Snapshot)
    ensures AfterFetch(AfterFetch(s)) == AfterFetch(s)
    ensures StoredHistory(AfterFetch(s).items) == StoredHistory(s.items)
  {
  }

  /** `fetchHistory`: the stored history, validated and sorted; a corrupt value is removed and reads as empty. */
  method FetchHistory(store: Storage?) returns (history: seq<TranslationEntry>)
    requires store != null ==> store.Valid()
    modifies store
    ensures store != null ==> store.Valid()
    ensures store == null ==> history == []
    ensures store != null ==>
      history == StoredHistory(old(store.items)) && store.Current() == AfterFetch(old(store.Current()))
  {
    if store == null {
      return [];
    }
    var stored := store.GetItem(HistoryStorageKey);
    if stored.Some? {
      match stored.value
      case EntryList(entries) =>
        return SortNewestFirst(CompleteEntries(entries));
      case _ =>
        store.RemoveItem(HistoryStorageKey);     // `JSON.parse` or `.filter` threw
    }
    return [];
  }

  // ---------------------------------------------------------------------------
  // Adding
  // ---------------------------------------------------------------------------

  /** The argument of `addHistoryEntry`; an absent code is `None`. */
  datatype EntryData = EntryData(
    sourceLanguage: string,
    targetLanguage: string,
    sourceText: string,
    targetText: string,
    sourceLanguageCode: Option<string>,
    targetLanguageCode: Option<string>)

  /** A code given with the data wins (the spread copies it over); otherwise the label is looked up as a code. */
  function CodeOrLookup(code: Option<string>, displayLabel: string): (r: Option<string>)
    ensures code.Some? ==> r == code
    ensures code.None? && r.Some? ==> GetLanguageByValue(displayLabel).Some? && r.value == GetLanguageByValue(displayLabel).value.value
    ensures code.None? && GetLanguageByValue(displayLabel).None? ==> r.None?
  {
    if code.Some? then code
    else match GetLanguageByValue(displayLabel)
      case Some(lang) => Some(lang.value)
      case None => None
  }

  /** The entry `addHistoryEntry` builds: the data, the codes, the new id, the time of the call, not a favourite. */
  function NewEntry(data: EntryData, newId: string, now: int): (e: TranslationEntry)
    ensures e.id == newId && e.timestamp == now && !e.isFavorite
    ensures e.sourceLanguage == data.sourceLanguage && e.targetLanguage == data.targetLanguage
    ensures e.sourceText == data.sourceText && e.targetText == data.targetText
  {
    TranslationEntry(newId, data.sourceLanguage, data.targetLanguage, data.sourceText, data.targetText, now, false,
                     CodeOrLookup(data.sourceLanguageCode, data.sourceLanguage),
                     CodeOrLookup(data.targetLanguageCode, data.targetLanguage))
  }

  /** The validation before saving: both labels and both texts are non-empty. */
  predicate IsValidEntryData(data: EntryData) {
    data.sourceLanguage != [] && data.targetLanguage != [] && data.sourceText != [] && data.targetText != []
  }

  /** The list truncated to the first `MaxHistoryItems` entries. */
  function Bounded(list: seq<TranslationEntry>): (r: seq<TranslationEntry>)
    ensures |r| == if |list| > MaxHistoryItems then MaxHistoryItems else |list|
    ensures r == list[..|r|]
  {
    if |list| > MaxHistoryItems then list[..MaxHistoryItems] else list
  }

  /** The history stored in `s` is a list whose first entry is `e`. */
  predicate StoredFirst(s: Snapshot, e: TranslationEntry) {
    && HistoryStorageKey in s.items && s.items[HistoryStorageKey].EntryList?
    && |s.items[HistoryStorageKey].entries| > 0 && s.items[HistoryStorageKey].entries[0] == e
  }

  /** The content after an `addHistoryEntry` call and the id it returns (`""` on failure). */
  datatype AddOutcome = AddOutcome(state: Snapshot, id: string)

  /**
   * The outcome of `addHistoryEntry` on the content `s`: rejected when
   * invalid; otherwise the history is fetched, and the new entry is written
   * in front of it, or, when that write exceeds the quota and more than 25
   * entries are stored, in front of the newest 25.
   */
  function AddHistoryResult(s: Snapshot, data: EntryData, newId: string, now: int,
                            firstWriteFails: bool, retryWriteFails: bool): (r: AddOutcome)
    ensures r.id == "" || r.id == newId
    ensures r.id != "" ==> IsValidEntryData(data) && StoredFirst(r.state, NewEntry(data, newId, now))
  {
    var entry := NewEntry(data, newId, now);
    if !IsValidEntryData(data) then AddOutcome(s, "")
    else
      var fetched := StoredHistory(s.items);
      var s1 := AfterFetch(s);
      if !firstWriteFails then
        AddOutcome(SetItemResult(s1, HistoryStorageKey, EntryList(Bounded([entry] + fetched)), false), newId)
      else if |fetched| > MaxHistoryItems / 2 then
        AddOutcome(SetItemResult(s1, HistoryStorageKey, EntryList([entry] + fetched[..MaxHistoryItems / 2]), retryWriteFails),
                   if retryWriteFails then "" else newId)
      else
        AddOutcome(s1, "")
  }

  /**
   * `addHistoryEntry(entryData)`, with the new id and the time passed in and
   * the two writes that can exceed the quota flagged. Returns the new id, or
   * `""` when nothing was saved.
   */
  method AddHistoryEntry(store: Storage?, data: EntryData, newId: string, now: int,
                         firstWriteFails: bool, retryWriteFails: bool)
    returns (id: string)
    requires store != null ==> store.Valid()
    modifies store
    ensures store != null ==> store.Valid()
    ensures store == null ==> id == ""
    ensures store != null ==>
      AddOutcome(store.Current(), id) == AddHistoryResult(old(store.Current()), data, newId, now, firstWriteFails, retryWriteFails)
  {
    if store == null {
      return "";
    }
    var newEntry := NewEntry(data, newId, now);
    if data.sourceLanguage == [] || data.targetLanguage == [] || data.sourceText == [] || data.targetText == [] {
      return "";
    }
    ghost var s0 := store.Current();
    var currentHistory := FetchHistory(store);
    currentHistory := [newEntry] + currentHistory;
    if |currentHistory| > MaxHistoryItems {
      currentHistory := currentHistory[..MaxHistoryItems];
    }
    var ok := store.SetItem(HistoryStorageKey, EntryList(currentHistory), firstWriteFails);
    if ok {
      return newId;
    }
    // catch: the write exceeded the quota
    FetchIsStable(s0);
    var refetched := FetchHistory(store);
    if |refetched| > MaxHistoryItems / 2 {
      refetched := refetched[..MaxHistoryItems / 2];
      refetched := [newEntry] + refetched;
      var retried := store.SetItem(HistoryStorageKey, EntryList(refetched), retryWriteFails);
      if retried {
        return newId;
      }
    }
    return "";
  }

  /** Invalid data is rejected with `""` and the storage is left exactly as it was. */
  lemma AddRejectsInvalid(s: Snapshot, data: EntryData, newId: string, now: int, f1: bool, f2: bool)
    requires !IsValidEntryData(data)
    ensures AddHistoryResult(s, data, newId, now, f1, f2) == AddOutcome(s, "")
  {
  }

  /**
   * A successful add returns the new id and stores the new entry first
   * (not a favourite, stamped `now`), followed by the previously fetched
   * entries in their order, at most 50 in all.
   */
  lemma AddPutsNewestFirst(s: Snapshot, data: EntryData, newId: string, now: int, f2: bool)
    requires IsValidEntryData(data)
    ensures var r := AddHistoryResult(s, data, newId, now, false, f2);
      var fetched := StoredHistory(s.items);
      && r.id == newId
      && HistoryStorageKey in r.state.items && r.state.items[HistoryStorageKey].EntryList?
      && var list := r.state.items[HistoryStorageKey].entries;
         && |list| == (if |fetched| + 1 > MaxHistoryItems then MaxHistoryItems else |fetched| + 1)
         && list[0] == NewEntry(data, newId, now)
         && list[0].id == newId && list[0].timestamp == now && !list[0].isFavorite
         && list[1..] == fetched[..|list| - 1]
  {
    var entry := NewEntry(data, newId, now);
    var fetched := StoredHistory(s.items);
    WrittenListShape(AfterFetch(s), entry, fetched);
    assert AddHistoryResult(s, data, newId, now, false, f2)
        == AddOutcome(SetItemResult(AfterFetch(s), HistoryStorageKey, EntryList(Bounded([entry] + fetched)), false), newId);
  }

  /** Writing the bounded list with `entry` in front of `list` stores `entry` first, then a prefix of `list`. */
  lemma WrittenListShape(s: Snapshot, entry: TranslationEntry, list: seq<TranslationEntry>)
    ensures var st := SetItemResult(s, HistoryStorageKey, EntryList(Bounded([entry] + list)), false);
      && HistoryStorageKey in st.items && st.items[HistoryStorageKey].EntryList?
      && var stored := st.items[HistoryStorageKey].entries;
         && |stored| == (if |list| + 1 > MaxHistoryItems then MaxHistoryItems else |list| + 1)
         && stored[0] == entry && stored[1..] == list[..|stored| - 1]
  {
    BoundedCons(entry, list);
  }

  /** Truncating an entry put in front of a list keeps the entry first and a prefix of the list after it. */
  lemma BoundedCons(entry: TranslationEntry, list: seq<TranslationEntry>)
    ensures var r := Bounded([entry] + list);
      |r| >= 1 && r[0] == entry && r[1..] == list[..|r| - 1]
  {
    var full := [entry] + list;
    var r := Bounded(full);
    assert full[1..] == list;
    assert r[1..] == full[1..|r|];
  }

  /**
   * When the first write exceeds the quota: with more than 25 entries the
   * retry stores the new entry followed by the newest 25, and returns the
   * id unless the retry fails too; with 25 or fewer nothing is written and
   * `""` is returned.
   */
  lemma AddQuotaFallback(s: Snapshot, data: EntryData, newId: string, now: int, f2: bool)
    requires IsValidEntryData(data)
    ensures var r := AddHistoryResult(s, data, newId, now, true, f2);
      var fetched := StoredHistory(s.items);
      && (|fetched| > 25 && !f2 ==>
            && r.id == newId
            && HistoryStorageKey in r.state.items
            && r.state.items[HistoryStorageKey] == EntryList([NewEntry(data, newId, now)] + fetched[..25])
            && |r.state.items[HistoryStorageKey].entries| == 26)
      && (|fetched| > 25 && f2 ==> r.id == "" && r.state == AfterFetch(s))
      && (|fetched| <= 25 ==> r.id == "" && r.state == AfterFetch(s))
  {
    var fetched := StoredHistory(s.items);
    assert MaxHistoryItems / 2 == 25;
    if |fetched| > 25 {
      var list := [NewEntry(data, newId, now)] + fetched[..25];
      assert AddHistoryResult(s, data, newId, now, true, f2)
          == AddOutcome(SetItemResult(AfterFetch(s), HistoryStorageKey, EntryList(list), f2), if f2 then "" else newId);
    }
  }

  /** Adding touches the history key only: every other key keeps its value. */
  lemma AddTouchesOnlyHistory(s: Snapshot, data: EntryData, newId: string, now: int, f1: bool, f2: bool)
    ensures var r := AddHistoryResult(s, data, newId, now, f1, f2);
      forall k :: k != HistoryStorageKey ==> (k in r.state.items <==> k in s.items)
                                              && (k in s.items ==> r.state.items[k] == s.items[k])
  {
  }

  /**
   * The code fallback looks up the display label as if it were a code, so
   * for the label of every supported language it finds nothing: an entry
   * added without codes is stored without codes.
   */
  lemma LabelFallbackFindsNoCode(k: nat)
    requires k < |SupportedLanguages|
    ensures GetLanguageByValue(SupportedLanguages[k].displayLabel).None?
    ensures CodeOrLookup(None, SupportedLanguages[k].displayLabel).None?
  {
    SupportedLabelsWordLike();
    WordLikeValueFindsNothing(SupportedLanguages[k].displayLabel);
  }

  // ---------------------------------------------------------------------------
  // Favourites
  // ---------------------------------------------------------------------------

  /** Some entry of `history` has the id `id`. */
  predicate HasEntry(history: seq<TranslationEntry>, id: string) {
    exists k :: 0 <= k < |history| && history[k].id == id
  }

  /** The favourite flag flipped on every entry with the id `id`. */
  function Flip(e: TranslationEntry, id: string): TranslationEntry {
    if e.id == id then e.(isFavorite := !e.isFavorite) else e
  }

  /** The list `map` builds in `toggleFavorite`. */
  function FlipById(history: seq<TranslationEntry>, id: string): (r: seq<TranslationEntry>)
    ensures |r| == |history|
    ensures forall k :: 0 <= k < |r| ==>
              r[k].(isFavorite := history[k].isFavorite) == history[k]
              && (r[k].isFavorite != history[k].isFavorite <==> history[k].id == id)
  {
    seq(|history|, k requires 0 <= k < |history| => Flip(history[k], id))
  }

  /** Flipping by the same id twice restores every flag. */
  lemma FlipByIdTwiceRestores(history: seq<TranslationEntry>, id: string)
    ensures FlipById(FlipById(history, id), id) == history
  {
    var once := FlipById(history, id);
    var twice := FlipById(once, id);
    forall k | 0 <= k < |history| ensures twice[k] == history[k] {
      assert once[k].id == history[k].id;
    }
  }

  /** Flipping changes neither completeness nor timestamps, so a valid fetched history stays valid. */
  lemma FlipByIdKeepsValid(history: seq<TranslationEntry>, id: string)
    requires NewestFirst(history) && forall k :: 0 <= k < |history| ==> IsComplete(history[k])
    ensures NewestFirst(FlipById(history, id))
    ensures forall k :: 0 <= k < |history| ==> IsComplete(FlipById(history, id)[k])
    ensures HasEntry(FlipById(history, id), id) <==> HasEntry(history, id)
  {
    var r := FlipById(history, id);
    assert forall k :: 0 <= k < |r| ==> r[k].id == history[k].id && r[k].timestamp == history[k].timestamp;
  }

  /**
   * The `map` in `toggleFavorite`: builds the flipped list one entry at a
   * time and sets `updated` when an entry matches.
   */
  method FlipMatching(history: seq<TranslationEntry>, id: string)
    returns (updatedHistory: seq<TranslationEntry>, updated: bool)
    ensures updatedHistory == FlipById(history, id)
    ensures updated <==> HasEntry(history, id)
  {
    updatedHistory := [];
    updated := false;
    var i := 0;
    while i < |history|
      invariant 0 <= i <= |history|
      invariant updatedHistory == FlipById(history, id)[..i]
      invariant updated <==> exists k :: 0 <= k < i && history[k].id == id
    {
      var item := history[i];
      if item.id == id {
        updated := true;
        updatedHistory := updatedHistory + [item.(isFavorite := !item.isFavorite)];
      } else {
        updatedHistory := updatedHistory + [item];
      }
      i := i + 1;
    }
    assert FlipById(history, id)[..i] == FlipById(history, id);
  }

  /** The content after `toggleFavorite(id)`: written only when an entry matched, the write able to fail silently. */
  function ToggleResult(s: Snapshot, id: string, writeFails: bool): (r: Snapshot)
    ensures forall k :: k != HistoryStorageKey ==> (k in r.items <==> k in s.items)
                                                   && (k in r.items ==> r.items[k] == s.items[k])
  {
    var fetched := StoredHistory(s.items);
    if HasEntry(fetched, id)
    then SetItemResult(AfterFetch(s), HistoryStorageKey, EntryList(FlipById(fetched, id)), writeFails)
    else AfterFetch(s)
  }

  /** `toggleFavorite(id)`, with the failure of its write flagged (and swallowed). */
  method ToggleFavorite(store: Storage?, id: string, writeFails: bool)
    requires store != null ==> store.Valid()
    modifies store
    ensures store != null ==> store.Valid() && store.Current() == ToggleResult(old(store.Current()), id, writeFails)
  {
    if store == null {
      return;
    }
    var currentHistory := FetchHistory(store);
    var updatedHistory, updated := FlipMatching(currentHistory, id);
    if updated {
      var _ := store.SetItem(HistoryStorageKey, EntryList(updatedHistory), writeFails);
    }
  }

  /**
   * A toggle with no matching id writes nothing; one with a match stores the
   * fetched history with only that entry's flag flipped, which reads back
   * as exactly that list.
   */
  lemma ToggleFlipsOnlyMatching(s: Snapshot, id: string)
    ensures !HasEntry(StoredHistory(s.items), id) ==> ToggleResult(s, id, false) == AfterFetch(s)
    ensures HasEntry(StoredHistory(s.items), id) ==>
      StoredHistory(ToggleResult(s, id, false).items) == FlipById(StoredHistory(s.items), id)
  {
    var h := StoredHistory(s.items);
    if HasEntry(h, id) {
      FetchedHistoryIsValid(s.items);
      FlipByIdKeepsValid(h, id);
      SortSortedIsIdentity(FlipById(h, id));
    }
  }

  /** Toggling the same id twice reads back the history as it was. */
  lemma ToggleTwiceRestores(s: Snapshot, id: string)
    ensures StoredHistory(ToggleResult(ToggleResult(s, id, false), id, false).items) == StoredHistory(s.items)
  {
    var h := StoredHistory(s.items);
    var once := ToggleResult(s, id, false);
    ToggleFlipsOnlyMatching(s, id);
    if HasEntry(h, id) {
      FetchedHistoryIsValid(s.items);
      FlipByIdKeepsValid(h, id);
      ToggleFlipsOnlyMatching(once, id);
      FlipByIdTwiceRestores(h, id);
    } else {
      FetchIsStable(s);
    }
  }

  // ---------------------------------------------------------------------------
  // Clearing
  // ---------------------------------------------------------------------------

  /** `clearHistory()`: removes the history key and nothing else, so the history then reads as empty. */
  method ClearHistory(store: Storage?)
    requires store != null ==> store.Valid()
    modifies store
    ensures store != null ==> store.Valid()
    ensures store != null ==>
      store.items == old(store.items) - {HistoryStorageKey} && store.keys == Without(old(store.keys), HistoryStorageKey)
      && StoredHistory(store.items) == []
  {
    if store == null {
      return;
    }
    store.RemoveItem(HistoryStorageKey);
  }
}
