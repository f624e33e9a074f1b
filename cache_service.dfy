/**
 * The translation cache kept in `localStorage`: one entry per
 * (source text, source language, target language) under a key derived from
 * a 32-bit rolling hash of the text, valid for seven days, read with lazy
 * purging, cleaned at most once an hour unless forced, and written with one
 * forced cleanup and one retry when the write exceeds the quota.
 */
module CacheService {
  import opened Common
  import opened LocalStorage

  const CachePrefix: string := "translationCache_"
  const CacheExpiryMs: int := 7 * 24 * 60 * 60 * 1000
  const CleanupIntervalMs: int := 60 * 60 * 1000
  /** The reserved key holding the time of the last cleanup. */
  const LastCleanupKey: string := CachePrefix + "lastCleanup"

  const TwoTo31: int := 0x8000_0000
  const TwoTo32: int := 0x1_0000_0000

  // ---------------------------------------------------------------------------
  // Key derivation
  // ---------------------------------------------------------------------------

  /** ECMAScript ToInt32 on an integral number: the value congruent to `x` modulo 2^32 in [-2^31, 2^31). */
  function ToInt32(x: int): (r: int)
    ensures -TwoTo31 <= r < TwoTo31
    ensures (x - r) % TwoTo32 == 0
  {
    var m := (x + TwoTo31) % TwoTo32;
    assert x - (m - TwoTo31) == TwoTo32 * ((x + TwoTo31) / TwoTo32);
    m - TwoTo31
  }

  /** Two numbers in the 32-bit range that are congruent modulo 2^32 are equal. */
  lemma Int32Unique(a: int, b: int)
    requires -TwoTo31 <= a < TwoTo31 && -TwoTo31 <= b < TwoTo31
    requires (a - b) % TwoTo32 == 0
    ensures a == b
  {
  }

  /** `acc << 5`: the 32-bit pattern of `acc` shifted left by five places. */
  function ShiftLeft5(acc: int): int {
    ToInt32(ToInt32(acc) * 32)
  }

  /** One step of the fold as written: `acc = ((acc << 5) - acc) + code; return acc & acc`. */
  function HashStep(acc: int, code: int): (r: int)
    ensures -TwoTo31 <= r < TwoTo31
  {
    ToInt32((ShiftLeft5(acc) - acc) + code)
  }

  /** The step as written is the rolling hash `toInt32(31 * acc + code)`. */
  lemma HashStepIsRolling(acc: int, code: int)
    ensures HashStep(acc, code) == ToInt32(31 * acc + code)
  {
    var s := ToInt32(acc);
    var t := ToInt32(s * 32);
    var u := HashStep(acc, code);
    var v := ToInt32(31 * acc + code);
    // every wrap-around differs from its argument by a multiple of 2^32
    var qs, qt, qu, qv := (acc - s) / TwoTo32, (s * 32 - t) / TwoTo32, (t - acc + code - u) / TwoTo32, (31 * acc + code - v) / TwoTo32;
    assert acc - s == TwoTo32 * qs;
    assert s * 32 - t == TwoTo32 * qt;
    assert t - acc + code - u == TwoTo32 * qu;
    assert 31 * acc + code - v == TwoTo32 * qv;
    assert u - v == TwoTo32 * (qv - qu - qt - 32 * qs);
    Int32Unique(u, v);
  }

  /** The fold `reduce((acc, char) => ..., 0)` over the code units, left to right. */
  function HashCode(units: seq<int>): (h: int)
    ensures -TwoTo31 <= h < TwoTo31
  {
    if units == [] then 0 else HashStep(HashCode(units[..|units| - 1]), units[|units| - 1])
  }

  /** The polynomial `u[0]*31^(n-1) + ... + u[n-1]`, computed without wrap-around. */
  function Polynomial(units: seq<int>): int {
    if units == [] then 0 else 31 * Polynomial(units[..|units| - 1]) + units[|units| - 1]
  }

  /** The hash is the 32-bit wrap-around of the polynomial hash: its exact value modulo 2^32. */
  lemma {:induction false} HashCodeIsPolynomial(units: seq<int>)
    ensures HashCode(units) == ToInt32(Polynomial(units))
  {
    if units != [] {
      var init, last := units[..|units| - 1], units[|units| - 1];
      HashCodeIsPolynomial(init);
      var h, p := HashCode(init), Polynomial(init);
      HashStepIsRolling(h, last);
      // h == ToInt32(p), so 31 * h + last and 31 * p + last are congruent modulo 2^32
      var q := (p - h) / TwoTo32;
      assert p - h == TwoTo32 * q;
      var a, b := ToInt32(31 * h + last), ToInt32(31 * p + last);
      var qa, qb := (31 * h + last - a) / TwoTo32, (31 * p + last - b) / TwoTo32;
      assert 31 * h + last - a == TwoTo32 * qa;
      assert 31 * p + last - b == TwoTo32 * qb;
      assert a - b == TwoTo32 * (qb - qa - 31 * q);
      Int32Unique(a, b);
    }
  }

  /** `Math.abs` on the hash. */
  function Abs(h: int): nat {
    if h < 0 then -h else h
  }

  /** `Math.abs(hashCode(sourceText)).toString()`: the last part of a key, decimal digits only. */
  function HashDigits(sourceText: string): (digits: string)
    ensures digits != [] && '_' !in digits
    ensures DecimalValue(digits) == Abs(HashCode(Utf16(sourceText)))
  {
    var d := NatToDecimal(Abs(HashCode(Utf16(sourceText))));
    assert forall k :: 0 <= k < |d| ==> d[k] != '_';
    d
  }

  /**
   * `generateCacheKey(sourceText, sourceLang, targetLang)`: the prefix, both
   * codes, and a tail of digits that reads back as the absolute hash.
   */
  function GenerateCacheKey(sourceText: string, sourceLang: string, targetLang: string): (key: string)
    ensures |key| > |CachePrefix| + |sourceLang| + |targetLang| + 2
    ensures key[..|CachePrefix|] == CachePrefix
    ensures DecimalValue(key[|CachePrefix| + |sourceLang| + |targetLang| + 2..]) == Abs(HashCode(Utf16(sourceText)))
  {
    var head, digits := CachePrefix + sourceLang + "_" + targetLang + "_", HashDigits(sourceText);
    assert |head| == |CachePrefix| + |sourceLang| + |targetLang| + 2;
    var key := head + digits;
    assert key[..|CachePrefix|] == head[..|CachePrefix|] == CachePrefix;
    assert key[|head|..] == digits;
    key
  }

  /** A key the cleanup treats as a cache entry: prefixed, and not the reserved stamp key. */
  predicate IsCacheEntryKey(key: string) {
    StartsWith(key, CachePrefix) && key != LastCleanupKey
  }

  /** Every generated key carries the cache prefix and is never the reserved stamp key. */
  lemma CacheKeyIsEntryKey(sourceText: string, sourceLang: string, targetLang: string)
    ensures IsCacheEntryKey(GenerateCacheKey(sourceText, sourceLang, targetLang))
  {
    var key := GenerateCacheKey(sourceText, sourceLang, targetLang);
    KeyAfterPrefix(sourceText, sourceLang, targetLang);
    var tail := key[|CachePrefix|..];
    assert tail[|sourceLang|] == '_';
    assert '_' !in "lastCleanup";
    assert LastCleanupKey[|CachePrefix|..] == "lastCleanup";
  }

  /** The position of the first `_` in `x` (its length if there is none). */
  function SeparatorIndex(x: string): (n: nat)
    ensures n <= |x|
  {
    if x == [] || x[0] == '_' then 0 else 1 + SeparatorIndex(x[1..])
  }

  /** In `a + "_" + b` with no `_` in `a`, the first `_` is the one right after `a`. */
  lemma {:induction false} SeparatorIndexAfter(a: string, b: string)
    requires '_' !in a
    ensures SeparatorIndex(a + "_" + b) == |a|
  {
    if a != [] {
      assert (a + "_" + b)[1..] == a[1..] + "_" + b;
      SeparatorIndexAfter(a[1..], b);
    }
  }

  /** Splitting at the first `_`: the part before it has no `_`, so both halves are determined. */
  lemma SplitAtSeparator(a: string, b: string, c: string, d: string)
    requires '_' !in a && '_' !in c
    requires a + "_" + b == c + "_" + d
    ensures a == c && b == d
  {
    var x := a + "_" + b;
    SeparatorIndexAfter(a, b);
    SeparatorIndexAfter(c, d);
    assert a == x[..|a|] && c == x[..|c|];
    assert b == x[|a| + 1..] && d == x[|c| + 1..];
  }

  /**
   * For codes without `_` (every supported code), a key determines its
   * language pair: entries of different pairs never share a key.
   */
  lemma CacheKeyDeterminesPair(text1: string, source1: string, target1: string,
                               text2: string, source2: string, target2: string)
    requires '_' !in source1 && '_' !in target1 && '_' !in source2 && '_' !in target2
    requires GenerateCacheKey(text1, source1, target1) == GenerateCacheKey(text2, source2, target2)
    ensures source1 == source2 && target1 == target2
    ensures Abs(HashCode(Utf16(text1))) == Abs(HashCode(Utf16(text2)))
  {
    var rest1, rest2 := target1 + "_" + HashDigits(text1), target2 + "_" + HashDigits(text2);
    KeyAfterPrefix(text1, source1, target1);
    KeyAfterPrefix(text2, source2, target2);
    SplitAtSeparator(source1, rest1, source2, rest2);
    SplitAtSeparator(target1, HashDigits(text1), target2, HashDigits(text2));
  }

  /** What follows the prefix in a key: the source code, `_`, the target code, `_`, the digits. */
  lemma KeyAfterPrefix(text: string, source: string, target: string)
    ensures var key := GenerateCacheKey(text, source, target);
      |CachePrefix| <= |key| && key[|CachePrefix|..] == source + "_" + (target + "_" + HashDigits(text))
  {
    var tail := source + "_" + (target + "_" + HashDigits(text));
    assert GenerateCacheKey(text, source, target) == CachePrefix + tail;
  }

  /** The hash is weak: `"Aa"` and `"BB"` share a key, so one may be served the other's translation. */
  lemma CacheKeyCollision(sourceLang: string, targetLang: string)
    ensures GenerateCacheKey("Aa", sourceLang, targetLang) == GenerateCacheKey("BB", sourceLang, targetLang)
  {
    assert Utf16("Aa") == [65, 97] by { assert "Aa"[1..] == "a"; }
    assert Utf16("BB") == [66, 66] by { assert "BB"[1..] == "B"; }
    HashCodeIsPolynomial([65, 97]);
    HashCodeIsPolynomial([66, 66]);
    assert [65, 97][..1] == [65] && [66, 66][..1] == [66];
    assert Polynomial([65, 97]) == 2112 == Polynomial([66, 66]);
  }

  // ---------------------------------------------------------------------------
  // Reading stored entries
  // ---------------------------------------------------------------------------

  /** The lookup serves `item` at time `now`: a record younger than seven days (`now - timestamp < 7 days`). */
  predicate Servable(item: Item, now: int) {
    item.CacheRecord? && now - item.timestamp < CacheExpiryMs
  }

  /**
   * The cleanup removes `item` at time `now`: text that does not parse, or a
   * record at least seven days old. A value without a numeric timestamp
   * compares as NaN and is kept.
   */
  predicate Stale(item: Item, now: int) {
    item.Malformed? || (item.CacheRecord? && now - item.timestamp >= CacheExpiryMs)
  }

  /** The lookup and the cleanup use the same boundary: a record is served exactly when it is not stale. */
  lemma ExpiryBoundaryAgrees(targetText: string, timestamp: int, now: int)
    ensures Servable(CacheRecord(targetText, timestamp), now) <==> !Stale(CacheRecord(targetText, timestamp), now)
  {
  }

  /** What `getCachedTranslation` returns when `items` is the storage content. */
  function CachedValue(items: map<string, Item>, key: string, now: int): (r: Option<string>)
  {
    if key in items && Servable(items[key], now) then Some(items[key].targetText) else None
  }

  /** The content a lookup of `key` at `now` leaves: an entry it does not serve is removed, anything else stays. */
  function AfterLookup(s: Snapshot, key: string, now: int): Snapshot {
    if key in s.items && !Servable(s.items[key], now) then Snapshot(Without(s.keys, key), s.items - {key})
    else s
  }

  /** `getCachedTranslation`: serve a fresh entry; remove an expired, untimed or corrupt one and report a miss. */
  method GetCachedTranslation(store: Storage?, sourceText: string, sourceLang: string, targetLang: string, now: int)
    returns (r: Option<string>)
    requires store != null ==> store.Valid()
    modifies store
    ensures store != null ==> store.Valid()
    ensures store == null ==> r.None?
    ensures store != null ==>
      var key := GenerateCacheKey(sourceText, sourceLang, targetLang);
      r == CachedValue(old(store.items), key, now) && store.Current() == AfterLookup(old(store.Current()), key, now)
  {
    if store == null {
      return None;
    }
    var key := GenerateCacheKey(sourceText, sourceLang, targetLang);
    var cachedItem := store.GetItem(key);
    if cachedItem.Some? {
      match cachedItem.value
      case Malformed =>
        store.RemoveItem(key);                       // corrupt entry
      case CacheRecord(targetText, timestamp) =>
        if now - timestamp < CacheExpiryMs {
          return Some(targetText);
        }
        store.RemoveItem(key);                       // expired entry
      case _ =>
        store.RemoveItem(key);                       // no timestamp: `now - undefined < ...` is false
    }
    return None;
  }

  /**
   * A lookup answers from a record younger than seven days and from nothing
   * else; what it does not serve it removes, so asking again gives the same
   * answer and changes nothing.
   */
  lemma LookupServesOnlyFresh(s: Snapshot, key: string, now: int)
    ensures CachedValue(s.items, key, now).Some? <==>
              key in s.items && s.items[key].CacheRecord? && now - s.items[key].timestamp < CacheExpiryMs
    ensures CachedValue(s.items, key, now).Some? ==> CachedValue(s.items, key, now).value == s.items[key].targetText
    ensures key in AfterLookup(s, key, now).items <==> CachedValue(s.items, key, now).Some?
    ensures CachedValue(AfterLookup(s, key, now).items, key, now) == CachedValue(s.items, key, now)
    ensures AfterLookup(AfterLookup(s, key, now), key, now) == AfterLookup(s, key, now)
  {
  }

  // ---------------------------------------------------------------------------
  // Cleanup
  // ---------------------------------------------------------------------------

  /** `parseInt(getItem(lastCleanup) || '0', 10)`: `None` stands for NaN. */
  function LastCleanupTime(items: map<string, Item>): (t: Option<int>)
    ensures t.None? <==> LastCleanupKey in items && !items[LastCleanupKey].Number?
    ensures t.Some? && LastCleanupKey in items ==> items[LastCleanupKey] == Number(t.value)
    ensures LastCleanupKey !in items ==> t == Some(0)
  {
    if LastCleanupKey !in items then Some(0)
    else match items[LastCleanupKey]
      case Number(n) => Some(n)
      case _ => None
  }

  /** The cleanup runs: forced, or at least an hour since the last one (a NaN stamp never holds it back). */
  predicate CleanupDue(items: map<string, Item>, now: int, force: bool) {
    force || LastCleanupTime(items).None? || now - LastCleanupTime(items).value >= CleanupIntervalMs
  }

  /** The cleanup keeps `k`: it is not an entry key, or its value is not stale. */
  predicate Keeps(items: map<string, Item>, k: string, now: int) {
    !(IsCacheEntryKey(k) && k in items && Stale(items[k], now))
  }

  /** The keys a cleanup at `now` leaves, in their order. */
  function SweepKeys(ks: seq<string>, items: map<string, Item>, now: int): (r: seq<string>)
    ensures forall x :: x in r <==> x in ks && Keeps(items, x, now)
    ensures |r| <= |ks|
    ensures DistinctKeys(ks) ==> DistinctKeys(r)
  {
    if ks == [] then []
    else
      var init, last := ks[..|ks| - 1], ks[|ks| - 1];
      var rest := SweepKeys(init, items, now);
      assert forall x :: x in ks <==> x in init || x == last;
      assert DistinctKeys(ks) ==> DistinctKeys(init) && last !in init;
      if Keeps(items, last, now) then rest + [last] else rest
  }

  /** The storage content a cleanup at `now` leaves. */
  function SweepItems(items: map<string, Item>, now: int): (r: map<string, Item>)
  {
    map k | k in items && Keeps(items, k, now) :: items[k]
  }

  /** After a sweep no entry key holds a stale value, and every entry the lookup would serve is still there. */
  lemma SweepSound(items: map<string, Item>, now: int)
    ensures forall k :: k in SweepItems(items, now) && IsCacheEntryKey(k) ==> !Stale(SweepItems(items, now)[k], now)
    ensures forall k :: k in items && Servable(items[k], now) ==> k in SweepItems(items, now)
    ensures forall k :: k in items && !IsCacheEntryKey(k) ==> k in SweepItems(items, now)
  {
  }

  /** Sweeping one more key appends it exactly when the cleanup keeps it. */
  lemma {:induction false} SweepKeysSnoc(ks: seq<string>, items: map<string, Item>, now: int, j: nat)
    requires j < |ks|
    ensures SweepKeys(ks[..j + 1], items, now)
              == SweepKeys(ks[..j], items, now) + (if Keeps(items, ks[j], now) then [ks[j]] else [])
  {
    assert ks[..j + 1][..j] == ks[..j];
  }

  /**
   * The state of the sweep after `j` of the original keys: the first `i`
   * keys are what the cleanup keeps of those `j`, the rest are the original
   * keys not yet visited, and every value left is an original value.
   */
  ghost predicate SweepProgress(keys: seq<string>, items: map<string, Item>,
                                keys0: seq<string>, items0: map<string, Item>, now: int, i: int, j: int)
  {
    && 0 <= i <= |keys| && 0 <= j <= |keys0|
    && keys[..i] == SweepKeys(keys0[..j], items0, now)
    && keys[i..] == keys0[j..]
    && forall k :: k in items ==> k in items0 && items[k] == items0[k]
  }

  /** The key under the cursor is the next original key, with its original value. */
  lemma SweepCursor(keys: seq<string>, items: map<string, Item>,
                    keys0: seq<string>, items0: map<string, Item>, now: int, i: int, j: int)
    requires SweepProgress(keys, items, keys0, items0, now, i, j) && i < |keys|
    ensures j < |keys0| && keys[i] == keys0[j]
    ensures keys[i] in items ==> items[keys[i]] == items0[keys[i]]
  {
    assert keys[i] == keys0[j] by { assert keys[i..][0] == keys0[j..][0]; }
  }

  /** The loop step that keeps the key at `i`: it joins the swept prefix. */
  lemma SweepKeepStep(keys: seq<string>, items: map<string, Item>,
                      keys0: seq<string>, items0: map<string, Item>, now: int, i: int, j: int)
    requires SweepProgress(keys, items, keys0, items0, now, i, j) && i < |keys|
    requires Keeps(items0, keys[i], now)
    ensures SweepProgress(keys, items, keys0, items0, now, i + 1, j + 1)
  {
    SweepCursor(keys, items, keys0, items0, now, i, j);
    SweepKeysSnoc(keys0, items0, now, j);
    assert keys[..i + 1] == keys[..i] + [keys[i]];
    assert keys[i + 1..] == keys[i..][1..];
  }

  /** The loop step that removes the key at `i`: the later keys move down into place `i`. */
  lemma SweepRemoveStep(keys: seq<string>, items: map<string, Item>,
                        keys0: seq<string>, items0: map<string, Item>, now: int, i: int, j: int)
    requires SweepProgress(keys, items, keys0, items0, now, i, j) && i < |keys|
    requires DistinctKeys(keys) && !Keeps(items0, keys[i], now)
    ensures SweepProgress(Without(keys, keys[i]), items - {keys[i]}, keys0, items0, now, i, j + 1)
  {
    SweepCursor(keys, items, keys0, items0, now, i, j);
    SweepKeysSnoc(keys0, items0, now, j);
    WithoutAt(keys, i);
    var after := Without(keys, keys[i]);
    assert after[..i] == keys[..i];
    assert after[i..] == keys[i + 1..] == keys[i..][1..];
  }

  /** A storage whose keys are the swept keys, and whose values are the original ones, holds the swept content. */
  lemma SweptContent(keys: seq<string>, items: map<string, Item>, keys0: seq<string>, items0: map<string, Item>, now: int)
    requires forall k :: k in items <==> k in keys
    requires forall k :: k in items0 <==> k in keys0
    requires keys == SweepKeys(keys0, items0, now)
    requires forall k :: k in items ==> k in items0 && items[k] == items0[k]
    ensures items == SweepItems(items0, now)
  {
  }

  /** When the cursor has passed every key, the storage holds exactly what the cleanup keeps. */
  lemma SweepDone(keys: seq<string>, items: map<string, Item>,
                  keys0: seq<string>, items0: map<string, Item>, now: int, i: int, j: int)
    requires SweepProgress(keys, items, keys0, items0, now, i, j) && i == |keys|
    requires forall k :: k in items <==> k in keys
    requires forall k :: k in items0 <==> k in keys0
    ensures j == |keys0|
    ensures keys == SweepKeys(keys0, items0, now) && items == SweepItems(items0, now)
  {
    assert keys0[j..] == keys[i..] == [];
    assert keys0[..j] == keys0;
    assert keys == keys[..i];
    SweptContent(keys, items, keys0, items0, now);
  }

  /**
   * One pass of the cleanup loop's body over the key at `i`: an entry key
   * whose value is malformed or expired is removed, anything else is left.
   */
  method SweepAt(store: Storage, i: nat, now: int) returns (removed: bool)
    requires store.Valid() && i < |store.keys|
    modifies store
    ensures store.Valid()
    ensures removed <==> !Keeps(old(store.items), old(store.keys[i]), now)
    ensures removed ==> store.keys == Without(old(store.keys), old(store.keys[i]))
                        && store.items == old(store.items) - {old(store.keys[i])}
    ensures !removed ==> store.keys == old(store.keys) && store.items == old(store.items)
  {
    var key := store.keys[i];
    removed := false;
    if StartsWith(key, CachePrefix) && key != LastCleanupKey {
      var item := store.GetItem(key).value;
      if item.Malformed? || (item.CacheRecord? && now - item.timestamp >= CacheExpiryMs) {
        store.RemoveItem(key);
        removed := true;
      }
    }
  }

  /**
   * The loop of `cleanupOldCacheEntries`. Walks the keys by index; after each
   * removal the index steps back one (`i--`) because the later keys move
   * down, so no key is skipped and the kept keys keep their order.
   */
  method SweepStoredEntries(store: Storage, now: int) returns (removedCount: nat)
    requires store.Valid()
    modifies store
    ensures store.Valid()
    ensures store.keys == SweepKeys(old(store.keys), old(store.items), now)
    ensures store.items == SweepItems(old(store.items), now)
    ensures removedCount == |old(store.keys)| - |store.keys|
  {
    ghost var keys0, items0 := store.keys, store.items;
    removedCount := 0;
    var i: int := 0;
    ghost var j: int := 0;     // position in the original key list
    assert keys0[..0] == [];
    while i < |store.keys|
      invariant store.Valid()
      invariant SweepProgress(store.keys, store.items, keys0, items0, now, i, j)
      invariant removedCount == j - i
      decreases |store.keys| - i
    {
      ghost var keys1, items1 := store.keys, store.items;
      SweepCursor(keys1, items1, keys0, items0, now, i, j);
      var removed := SweepAt(store, i, now);
      if removed {
        SweepRemoveStep(keys1, items1, keys0, items0, now, i, j);
        removedCount := removedCount + 1;
        i := i - 1;
      } else {
        SweepKeepStep(keys1, items1, keys0, items0, now, i, j);
      }
      i := i + 1;
      j := j + 1;
    }
    SweepDone(store.keys, store.items, keys0, items0, now, i, j);
  }

  /** The cleanup's stamp write runs and throws: the cleanup is due and the write exceeds the quota. */
  predicate CleanupThrows(s: Snapshot, now: int, force: bool, stampExceedsQuota: bool) {
    CleanupDue(s.items, now, force) && stampExceedsQuota
  }

  /** The content a cleanup at `now` leaves: untouched when not due, else swept and then stamped. */
  function CleanupResult(s: Snapshot, now: int, force: bool, stampExceedsQuota: bool): Snapshot {
    if !CleanupDue(s.items, now, force) then s
    else SetItemResult(Snapshot(SweepKeys(s.keys, s.items, now), SweepItems(s.items, now)),
                       LastCleanupKey, Number(now), stampExceedsQuota)
  }

  /**
   * A cleanup removes nothing the cleanup keeps and adds nothing but the
   * stamp; when it is due, no stale entry survives it.
   */
  lemma CleanupFrame(s: Snapshot, now: int, force: bool, stampExceedsQuota: bool)
    ensures var r := CleanupResult(s, now, force, stampExceedsQuota);
      && (forall k :: k in r.items && k != LastCleanupKey ==> k in s.items && r.items[k] == s.items[k])
      && (forall k :: k in s.items && k != LastCleanupKey && Keeps(s.items, k, now) ==>
            k in r.items && r.items[k] == s.items[k])
      && (CleanupDue(s.items, now, force) ==>
            forall k :: k in r.items && IsCacheEntryKey(k) ==> !Stale(r.items[k], now))
      && (CleanupDue(s.items, now, force) && !stampExceedsQuota ==>
            LastCleanupKey in r.items && r.items[LastCleanupKey] == Number(now))
  {
    SweepSound(s.items, now);
  }

  /** After a successful cleanup the next unforced one, within the hour, does nothing. */
  lemma CleanupThrottled(s: Snapshot, now: int, later: int, force: bool)
    requires CleanupDue(s.items, now, force)
    requires now <= later < now + CleanupIntervalMs
    ensures var r := CleanupResult(s, now, force, false);
      !CleanupDue(r.items, later, false) && CleanupResult(r, later, false, false) == r
  {
  }

  /**
   * `cleanupOldCacheEntries(force)`: unless forced, runs at most once an
   * hour; sweeps the entries, then writes the stamp, a write that can
   * exceed the quota and throw: `thrown` reports that to the caller.
   */
  method CleanupOldCacheEntries(store: Storage?, now: int, force: bool, stampExceedsQuota: bool)
    returns (removedCount: nat, thrown: bool)
    requires store != null ==> store.Valid()
    modifies store
    ensures store != null ==> store.Valid()
    ensures store == null ==> removedCount == 0 && !thrown
    ensures store != null ==>
      && store.Current() == CleanupResult(old(store.Current()), now, force, stampExceedsQuota)
      && thrown == CleanupThrows(old(store.Current()), now, force, stampExceedsQuota)
      && removedCount == (if CleanupDue(old(store.items), now, force)
                          then |old(store.keys)| - |SweepKeys(old(store.keys), old(store.items), now)|
                          else 0)
  {
    if store == null {
      return 0, false;
    }
    var lastCleanup := LastCleanupTime(store.items);
    if !force && lastCleanup.Some? && now - lastCleanup.value < CleanupIntervalMs {
      return 0, false;
    }
    removedCount := SweepStoredEntries(store, now);
    var ok := store.SetItem(LastCleanupKey, Number(now), stampExceedsQuota);
    thrown := !ok;
  }

  // ---------------------------------------------------------------------------
  // Writing
  // ---------------------------------------------------------------------------

  /** Which of the writes of one `cacheTranslation` call exceed the quota (each `setItem` can throw). */
  datatype CacheWriteFaults = CacheWriteFaults(
    write: bool,         // the first `setItem(key, ...)`
    stamp: bool,         // the stamp written by the unforced cleanup after it
    forcedStamp: bool,   // the stamp written by the forced cleanup in the `catch`
    retry: bool)         // the single retry of `setItem(key, ...)`

  /** The `try` block throws: the first write fails, or the cleanup after it throws. */
  predicate CacheWriteCaught(s: Snapshot, key: string, data: Item, now: int, faults: CacheWriteFaults) {
    faults.write || CleanupThrows(SetItemResult(s, key, data, false), now, false, faults.stamp)
  }

  /** The exception leaves `cacheTranslation`: the `catch` ran and its forced cleanup threw. */
  predicate CacheWriteEscapes(s: Snapshot, key: string, data: Item, now: int, faults: CacheWriteFaults) {
    CacheWriteCaught(s, key, data, now, faults) && faults.forcedStamp
  }

  /** The content `cacheTranslation` leaves, following its `try`, `catch` and retry. */
  function CacheWriteResult(s: Snapshot, key: string, data: Item, now: int, faults: CacheWriteFaults): Snapshot {
    var written := SetItemResult(s, key, data, faults.write);
    var tried := if faults.write then written else CleanupResult(written, now, false, faults.stamp);
    if !CacheWriteCaught(s, key, data, now, faults) then tried
    else
      var recovered := CleanupResult(tried, now, true, faults.forcedStamp);
      if faults.forcedStamp then recovered else SetItemResult(recovered, key, data, faults.retry)
  }

  /**
   * `cacheTranslation`. Writes `{targetText, timestamp: now}` under the key,
   * then runs the hourly cleanup. If either throws, the `catch` runs a forced
   * cleanup and retries the write once, swallowing a failed retry. The forced
   * cleanup itself is not guarded: if its stamp write throws, the exception
   * leaves the function (`escaped`).
   */
  method CacheTranslation(store: Storage?, sourceText: string, sourceLang: string, targetLang: string,
                          targetText: string, now: int, faults: CacheWriteFaults)
    returns (escaped: bool)
    requires store != null ==> store.Valid()
    modifies store
    ensures store != null ==> store.Valid()
    ensures store == null ==> !escaped
    ensures store != null ==>
      var key := GenerateCacheKey(sourceText, sourceLang, targetLang);
      var data := CacheRecord(targetText, now);
      && store.Current() == CacheWriteResult(old(store.Current()), key, data, now, faults)
      && escaped == CacheWriteEscapes(old(store.Current()), key, data, now, faults)
  {
    if store == null {
      return false;
    }
    var key := GenerateCacheKey(sourceText, sourceLang, targetLang);
    var data := CacheRecord(targetText, now);
    var ok := store.SetItem(key, data, faults.write);
    if ok {
      var _, thrown := CleanupOldCacheEntries(store, now, false, faults.stamp);
      if !thrown {
        return false;
      }
    }
    // catch: forced cleanup, then exactly one retry
    var _, thrownAgain := CleanupOldCacheEntries(store, now, true, faults.forcedStamp);
    if thrownAgain {
      return true;
    }
    var retried := store.SetItem(key, data, faults.retry);
    return false;
  }

  /** The content is unchanged outside `key` and the stamp, except for entries that disappear. */
  ghost predicate OnlyRemovesOrTouches(s: map<string, Item>, r: map<string, Item>, key: string) {
    forall k :: k in r && k != key && k != LastCleanupKey ==> k in s && r[k] == s[k]
  }

  /** Every entry other than `key` and the stamp that the cleanup keeps at `now` is still there. */
  ghost predicate KeepsFresh(s: map<string, Item>, r: map<string, Item>, key: string, now: int) {
    forall k :: k in s && k != key && k != LastCleanupKey && Keeps(s, k, now) ==> k in r && r[k] == s[k]
  }

  /** Both frame properties hold of one write step and of one cleanup step. */
  lemma StepFrames(s: Snapshot, key: string, data: Item, now: int, force: bool, fails: bool)
    ensures OnlyRemovesOrTouches(s.items, SetItemResult(s, key, data, fails).items, key)
    ensures KeepsFresh(s.items, SetItemResult(s, key, data, fails).items, key, now)
    ensures OnlyRemovesOrTouches(s.items, CleanupResult(s, now, force, fails).items, key)
    ensures KeepsFresh(s.items, CleanupResult(s, now, force, fails).items, key, now)
  {
    CleanupFrame(s, now, force, fails);
  }

  /** The frame properties compose along a sequence of steps. */
  lemma FramesCompose(a: map<string, Item>, b: map<string, Item>, c: map<string, Item>, key: string, now: int)
    requires OnlyRemovesOrTouches(a, b, key) && OnlyRemovesOrTouches(b, c, key)
    requires KeepsFresh(a, b, key, now) && KeepsFresh(b, c, key, now)
    ensures OnlyRemovesOrTouches(a, c, key) && KeepsFresh(a, c, key, now)
  {
    forall k | k in a && k != key && k != LastCleanupKey && Keeps(a, k, now)
      ensures k in c && c[k] == a[k]
    {
      assert k in b && b[k] == a[k];
      assert Keeps(b, k, now);
    }
  }

  /** Apart from its own key and the stamp, a write only removes what the cleanup removes and keeps the rest. */
  lemma {:induction false} CacheWriteFrame(s: Snapshot, key: string, data: Item, now: int, faults: CacheWriteFaults)
    ensures OnlyRemovesOrTouches(s.items, CacheWriteResult(s, key, data, now, faults).items, key)
    ensures KeepsFresh(s.items, CacheWriteResult(s, key, data, now, faults).items, key, now)
  {
    var written := SetItemResult(s, key, data, faults.write);
    StepFrames(s, key, data, now, false, faults.write);
    var tried := if faults.write then written else CleanupResult(written, now, false, faults.stamp);
    StepFrames(written, key, data, now, false, faults.stamp);
    if !faults.write {
      FramesCompose(s.items, written.items, tried.items, key, now);
    }
    if CacheWriteCaught(s, key, data, now, faults) {
      var recovered := CleanupResult(tried, now, true, faults.forcedStamp);
      StepFrames(tried, key, data, now, true, faults.forcedStamp);
      FramesCompose(s.items, tried.items, recovered.items, key, now);
      StepFrames(recovered, key, data, now, true, faults.retry);
      FramesCompose(s.items, recovered.items, SetItemResult(recovered, key, data, faults.retry).items, key, now);
    }
  }

  /** A cleanup keeps a fresh record under an entry key. */
  lemma CleanupKeepsFreshRecord(s: Snapshot, key: string, data: Item, now: int, force: bool, fails: bool)
    requires IsCacheEntryKey(key) && data.CacheRecord? && data.timestamp == now
    requires key in s.items && s.items[key] == data
    ensures key in CleanupResult(s, now, force, fails).items
    ensures CleanupResult(s, now, force, fails).items[key] == data
  {
    CleanupFrame(s, now, force, fails);
  }

  /**
   * Unless the first write fails and the recovery does not complete, the
   * new record is stored under its key, fresh records surviving the cleanups.
   */
  lemma {:induction false} CacheWriteStoresRecord(s: Snapshot, sourceText: string, sourceLang: string, targetLang: string,
                                                  targetText: string, now: int, faults: CacheWriteFaults)
    requires !faults.write || (!faults.forcedStamp && !faults.retry)
    ensures var key := GenerateCacheKey(sourceText, sourceLang, targetLang);
      var r := CacheWriteResult(s, key, CacheRecord(targetText, now), now, faults);
      key in r.items && r.items[key] == CacheRecord(targetText, now)
  {
    var key := GenerateCacheKey(sourceText, sourceLang, targetLang);
    var data := CacheRecord(targetText, now);
    CacheKeyIsEntryKey(sourceText, sourceLang, targetLang);
    var written := SetItemResult(s, key, data, faults.write);
    if !faults.write {
      CleanupKeepsFreshRecord(written, key, data, now, false, faults.stamp);
      var tried := CleanupResult(written, now, false, faults.stamp);
      CleanupKeepsFreshRecord(tried, key, data, now, true, faults.forcedStamp);
    }
  }

  /** The write lets an exception escape exactly when the forced stamp fails after the first write or the hourly stamp failed. */
  lemma CacheWriteEscapeCondition(s: Snapshot, sourceText: string, sourceLang: string, targetLang: string,
                                  targetText: string, now: int, faults: CacheWriteFaults)
    ensures var key := GenerateCacheKey(sourceText, sourceLang, targetLang);
      CacheWriteEscapes(s, key, CacheRecord(targetText, now), now, faults) <==>
        faults.forcedStamp && (faults.write || (CleanupDue(s.items, now, false) && faults.stamp))
  {
    CacheKeyIsEntryKey(sourceText, sourceLang, targetLang);
    var key := GenerateCacheKey(sourceText, sourceLang, targetLang);
    assert LastCleanupTime(SetItemResult(s, key, CacheRecord(targetText, now), false).items) == LastCleanupTime(s.items);
  }

  /** Writing at `t0` and reading the same triple less than seven days later serves the written text; at seven days or later, nothing. */
  method CacheRoundTrip(store: Storage, sourceText: string, sourceLang: string, targetLang: string,
                        targetText: string, t0: int, t1: int, t2: int)
    returns (early: Option<string>, late: Option<string>)
    requires store.Valid()
    requires t1 - t0 < CacheExpiryMs && t2 - t0 >= CacheExpiryMs
    modifies store
    ensures early == Some(targetText)
    ensures late.None?
  {
    ghost var s0 := store.Current();
    var faults := CacheWriteFaults(false, false, false, false);
    var _ := CacheTranslation(store, sourceText, sourceLang, targetLang, targetText, t0, faults);
    CacheWriteStoresRecord(s0, sourceText, sourceLang, targetLang, targetText, t0, faults);
    early := GetCachedTranslation(store, sourceText, sourceLang, targetLang, t1);
    late := GetCachedTranslation(store, sourceText, sourceLang, targetLang, t2);
  }
}
