/**
 * The history panel: the favourites filter and the search over the stored
 * history, the newest-first ordering of what it shows, the optimistic
 * favourite toggle with its revert, and the effect that loads the history
 * when the panel opens and resets the filters when it closes.
 */
module HistoryPanelComponent {
  import opened Common
  import opened Types
  import opened LocalStorage
  import opened HistoryService

  // ---------------------------------------------------------------------------
  // Filtering and ordering
  // ---------------------------------------------------------------------------

  /**
   * The lower-cased term occurs in the lower-cased source text, target text
   * or one of the two labels: the empty term matches every entry, and a term
   * longer than all four fields matches none.
   */
  predicate MatchesTerm(e: TranslationEntry, term: string): (r: bool)
    ensures term == [] ==> r
    ensures r ==> |term| <= |e.sourceText| || |term| <= |e.targetText| || |term| <= |e.sourceLanguage| || |term| <= |e.targetLanguage|
  {
    assert OccursAt(ToLower(e.sourceText), [], 0);
    || Includes(ToLower(e.sourceText), term) || Includes(ToLower(e.targetText), term)
    || Includes(ToLower(e.sourceLanguage), term) || Includes(ToLower(e.targetLanguage), term)
  }

  /** The callback of `filter`: the favourites filter first, then the search (an empty term matches everything). */
  predicate Kept(e: TranslationEntry, showFavorites: bool, searchTerm: string) {
    if showFavorites && !e.isFavorite then false
    else
      var term := ToLower(searchTerm);
      term == [] || MatchesTerm(e, term)
  }

  /** `history.filter(...)`: the entries the callback keeps, in their order. */
  function KeptEntries(history: seq<TranslationEntry>, showFavorites: bool, searchTerm: string): (r: seq<TranslationEntry>)
    ensures Subsequence(r, history)
    ensures forall e :: e in r <==> e in history && Kept(e, showFavorites, searchTerm)
  {
    if history == [] then []
    else
      var rest := KeptEntries(history[1..], showFavorites, searchTerm);
      assert forall e :: e in history <==> e == history[0] || e in history[1..];
      if Kept(history[0], showFavorites, searchTerm) then [history[0]] + rest else rest
  }

  /** The filter keeps every entry the callback accepts as often as it occurs, and no other entry. */
  lemma {:induction false} KeptEntriesCounts(history: seq<TranslationEntry>, showFavorites: bool, searchTerm: string,
                                             e: TranslationEntry)
    ensures multiset(KeptEntries(history, showFavorites, searchTerm))[e]
              == if Kept(e, showFavorites, searchTerm) then multiset(history)[e] else 0
  {
    if history != [] {
      var head, tail := history[0], history[1..];
      KeptEntriesCounts(tail, showFavorites, searchTerm, e);
      assert history == [head] + tail;
      assert multiset(history) == multiset{head} + multiset(tail);
      if Kept(head, showFavorites, searchTerm) {
        var rest := KeptEntries(tail, showFavorites, searchTerm);
        assert KeptEntries(history, showFavorites, searchTerm) == [head] + rest;
        assert multiset([head] + rest) == multiset{head} + multiset(rest);
      }
    }
  }

  /** `filteredHistory`: the kept entries, sorted newest first. */
  function FilteredHistory(history: seq<TranslationEntry>, showFavorites: bool, searchTerm: string): (r: seq<TranslationEntry>)
    ensures NewestFirst(r)
    ensures multiset(r) == multiset(KeptEntries(history, showFavorites, searchTerm))
  {
    SortNewestFirst(KeptEntries(history, showFavorites, searchTerm))
  }

  /**
   * An entry is shown exactly when it is in the history, it is a favourite
   * if only favourites are shown, and the term is empty or occurs, ignoring
   * ASCII case, in its source text, target text or either label.
   */
  lemma FilteredHistoryMembers(history: seq<TranslationEntry>, showFavorites: bool, searchTerm: string, e: TranslationEntry)
    ensures e in FilteredHistory(history, showFavorites, searchTerm) <==>
      && e in history
      && (showFavorites ==> e.isFavorite)
      && (searchTerm == []
          || (exists i :: OccursAt(ToLower(e.sourceText), ToLower(searchTerm), i))
          || (exists i :: OccursAt(ToLower(e.targetText), ToLower(searchTerm), i))
          || (exists i :: OccursAt(ToLower(e.sourceLanguage), ToLower(searchTerm), i))
          || (exists i :: OccursAt(ToLower(e.targetLanguage), ToLower(searchTerm), i)))
  {
    var r := FilteredHistory(history, showFavorites, searchTerm);
    var kept := KeptEntries(history, showFavorites, searchTerm);
    assert e in r <==> e in multiset(r);
    assert e in kept <==> e in multiset(kept);
    assert ToLower(searchTerm) == [] <==> searchTerm == [];
  }

  /** With only favourites shown, every shown entry is a favourite. */
  lemma FavoritesFilterShowsOnlyFavorites(history: seq<TranslationEntry>, searchTerm: string)
    ensures forall k :: 0 <= k < |FilteredHistory(history, true, searchTerm)| ==>
              FilteredHistory(history, true, searchTerm)[k].isFavorite
  {
    var r := FilteredHistory(history, true, searchTerm);
    forall k | 0 <= k < |r| ensures r[k].isFavorite {
      assert r[k] in multiset(r);
      assert r[k] in KeptEntries(history, true, searchTerm);
    }
  }

  /** The kept entries of everything are everything. */
  lemma {:induction false} KeepAll(history: seq<TranslationEntry>, showFavorites: bool)
    requires forall k :: 0 <= k < |history| ==> !showFavorites || history[k].isFavorite
    ensures KeptEntries(history, showFavorites, []) == history
  {
    if history != [] {
      KeepAll(history[1..], showFavorites);
    }
  }

  /** With an empty term and the favourites filter off, every entry is shown, as often as it occurs. */
  lemma EmptySearchShowsEverything(history: seq<TranslationEntry>)
    ensures multiset(FilteredHistory(history, false, [])) == multiset(history)
    ensures |FilteredHistory(history, false, [])| == |history|
  {
    KeepAll(history, false);
  }

  /** Filtering a newest-first list keeps it newest first. */
  lemma {:induction false} KeptEntriesOfSorted(history: seq<TranslationEntry>, showFavorites: bool, searchTerm: string)
    requires NewestFirst(history)
    ensures NewestFirst(KeptEntries(history, showFavorites, searchTerm))
  {
    if history != [] {
      KeptEntriesOfSorted(history[1..], showFavorites, searchTerm);
      var rest := KeptEntries(history[1..], showFavorites, searchTerm);
      forall k | 0 <= k < |rest| ensures history[0].timestamp >= rest[k].timestamp {
        assert rest[k] in history[1..];
      }
    }
  }

  /**
   * On a history that is already newest first, as a fetched one is, the
   * sort changes nothing: the panel shows the kept entries in their stored
   * order.
   */
  lemma SortKeepsFetchedOrder(history: seq<TranslationEntry>, showFavorites: bool, searchTerm: string)
    requires NewestFirst(history)
    ensures FilteredHistory(history, showFavorites, searchTerm) == KeptEntries(history, showFavorites, searchTerm)
    ensures Subsequence(FilteredHistory(history, showFavorites, searchTerm), history)
  {
    KeptEntriesOfSorted(history, showFavorites, searchTerm);
    SortSortedIsIdentity(KeptEntries(history, showFavorites, searchTerm));
  }

  /** Flipping an id that no entry has changes nothing. */
  lemma FlipByAbsentIdIsIdentity(history: seq<TranslationEntry>, id: string)
    requires !HasEntry(history, id)
    ensures FlipById(history, id) == history
  {
    var r := FlipById(history, id);
    forall k | 0 <= k < |r| ensures r[k] == history[k] {
      assert history[k].id != id;
    }
  }

  /**
   * The optimistic flip agrees with the service: when the panel shows what
   * is stored and the write succeeds, the flipped list is what the storage
   * then reads back.
   */
  lemma OptimisticFlipMatchesService(s: Snapshot, id: string)
    ensures FlipById(StoredHistory(s.items), id) == StoredHistory(ToggleResult(s, id, false).items)
  {
    ToggleFlipsOnlyMatching(s, id);
    if !HasEntry(StoredHistory(s.items), id) {
      FlipByAbsentIdIsIdentity(StoredHistory(s.items), id);
      FetchIsStable(s);
    }
  }

  // ---------------------------------------------------------------------------
  // The component
  // ---------------------------------------------------------------------------

  class HistoryPanel {
    var open: bool
    var searchTerm: string
    var history: seq<TranslationEntry>
    var isLoading: bool
    var error: Option<string>
    var showFavorites: bool
    /** The browser storage the history lives in, `null` when it is unavailable. */
    const store: Storage?

    /** The storage is well formed, and the panel's list is complete entries, newest first, as fetched. */
    ghost predicate Valid()
      reads this, store
    {
      && (store != null ==> store.Valid())
      && NewestFirst(history)
      && forall k :: 0 <= k < |history| ==> IsComplete(history[k])
    }

    /** What the panel shows. */
    function Shown(): seq<TranslationEntry>
      reads this
    {
      FilteredHistory(history, showFavorites, searchTerm)
    }

    /** Mounting closed: no term, no favourites filter, an empty list and the loading flag set. */
    constructor (store: Storage?)
      requires store != null ==> store.Valid()
      ensures Valid() && this.store == store
      ensures !open && searchTerm == [] && history == [] && isLoading && error.None? && !showFavorites
    {
      this.store := store;
      open, searchTerm, history := false, [], [];
      isLoading, error, showFavorites := true, None, false;
    }

    /**
     * The effect on `open`, run when it changes: opening loads the history
     * (fetching removes a corrupt stored value); closing resets the term
     * and the favourites filter and keeps the list.
     */
    method SetOpen(value: bool)
      requires Valid()
      modifies this, store
      ensures Valid() && open == value
      ensures value == old(open) ==>
        && history == old(history) && searchTerm == old(searchTerm)
        && showFavorites == old(showFavorites) && isLoading == old(isLoading) && error == old(error)
      ensures value && !old(open) ==>
        && !isLoading && error.None? && searchTerm == old(searchTerm) && showFavorites == old(showFavorites)
        && (store == null ==> history == [])
        && (store != null ==> history == StoredHistory(old(store.items)) && store.Current() == AfterFetch(old(store.Current())))
      ensures !value && old(open) ==>
        searchTerm == [] && !showFavorites && history == old(history) && isLoading == old(isLoading) && error == old(error)
      ensures store != null && !(value && !old(open)) ==> store.Current() == old(store.Current())
    {
      if value == open {
        return;
      }
      open := value;
      if open {
        isLoading := true;
        error := None;
        var data := FetchHistory(store);
        if store != null {
          FetchedHistoryIsValid(old(store.items));
        }
        history := data;
        isLoading := false;
      } else {
        searchTerm := [];
        showFavorites := false;
      }
    }

    /** The search box's `onChange`. */
    method SetSearchTerm(value: string)
      requires Valid()
      modifies this
      ensures Valid() && searchTerm == value
      ensures open == old(open) && history == old(history) && showFavorites == old(showFavorites)
      ensures isLoading == old(isLoading) && error == old(error)
    {
      searchTerm := value;
    }

    /** The star button: shows only favourites, or everything again. */
    method ToggleShowFavorites()
      requires Valid()
      modifies this
      ensures Valid() && showFavorites == !old(showFavorites)
      ensures open == old(open) && history == old(history) && searchTerm == old(searchTerm)
      ensures isLoading == old(isLoading) && error == old(error)
    {
      showFavorites := !showFavorites;
    }

    /**
     * `handleToggleFavorite(id)`: flips the entry in the panel at once, asks
     * the service to toggle it (a failed write is swallowed there), and flips
     * it back if the call rejects. The service as modelled never rejects;
     * `rejected` keeps the panel's own revert path.
     */
    method HandleToggleFavorite(id: string, writeFails: bool, rejected: bool)
      requires Valid()
      modifies this, store
      ensures Valid()
      ensures history == if rejected then old(history) else FlipById(old(history), id)
      ensures store != null ==> store.Current() == ToggleResult(old(store.Current()), id, writeFails)
      ensures open == old(open) && searchTerm == old(searchTerm) && showFavorites == old(showFavorites)
      ensures isLoading == old(isLoading) && error == old(error)
    {
      FlipByIdKeepsValid(history, id);
      history := FlipById(history, id);
      ToggleFavorite(store, id, writeFails);
      if rejected {
        FlipByIdKeepsValid(history, id);
        FlipByIdTwiceRestores(old(history), id);
        history := FlipById(history, id);
      }
    }
  }

  /**
   * Opening the panel and toggling a favourite whose write succeeds leaves
   * the panel showing exactly what the storage then holds.
   */
  method OpenAndToggle(panel: HistoryPanel, id: string)
    requires panel.Valid() && !panel.open && panel.store != null
    modifies panel, panel.store
    ensures panel.Valid() && panel.open
    ensures panel.history == StoredHistory(panel.store.items)
  {
    ghost var before := panel.store.Current();
    panel.SetOpen(true);
    ghost var content := panel.store.Current();
    FetchIsStable(before);
    OptimisticFlipMatchesService(content, id);
    panel.HandleToggleFavorite(id, false, false);
  }
}
