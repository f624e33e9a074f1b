/**
 * The browser's `localStorage`, which the translation cache and the history
 * share: an ordered list of keys (the order `localStorage.key(i)` walks) and
 * the value stored under each key. Values are kept as what their JSON text
 * parses to, with a `Malformed` variant for text that does not parse.
 */
module LocalStorage {
  import opened Common
  import opened Types

  datatype Item =
    | CacheRecord(targetText: string, timestamp: int)   // `{"targetText": ..., "timestamp": ...}`
    | Number(n: int)                                     // a bare decimal number, as the cleanup stamp is stored
    | EntryList(entries: seq<TranslationEntry>)          // a JSON array of history records
    | Malformed                                          // text that `JSON.parse` rejects

  /** `ks` lists no key twice. */
  predicate DistinctKeys(ks: seq<string>) {
    forall i, j :: 0 <= i < j < |ks| ==> ks[i] != ks[j]
  }

  /** `ks` with `k` removed, the other keys keeping their order. */
  function Without(ks: seq<string>, k: string): (r: seq<string>)
    ensures forall x :: x in r <==> x in ks && x != k
    ensures DistinctKeys(ks) ==> DistinctKeys(r)
    ensures |r| <= |ks|
  {
    if ks == [] then []
    else if ks[0] == k then Without(ks[1..], k)
    else
      var rest := Without(ks[1..], k);
      assert DistinctKeys(ks) ==> ks[0] !in ks[1..] && DistinctKeys(ks[1..]);
      var r := [ks[0]] + rest;
      assert DistinctKeys(ks) ==> forall j :: 0 < j < |r| ==> r[j] in rest;
      r
  }

  /** With distinct keys, removing the key at position `i` closes the gap at `i`: the keys before and after keep their order. */
  lemma {:induction false} WithoutAt(ks: seq<string>, i: nat)
    requires DistinctKeys(ks) && i < |ks|
    ensures Without(ks, ks[i]) == ks[..i] + ks[i + 1..]
  {
    if i > 0 {
      var tail := ks[1..];
      assert DistinctKeys(tail);
      assert tail[i - 1] == ks[i] && ks[0] != ks[i];
      WithoutAt(tail, i - 1);
      assert Without(ks, ks[i]) == [ks[0]] + Without(tail, ks[i]);
      assert tail[..i - 1] == ks[1..i];
      assert tail[i..] == ks[i + 1..];
      assert ks[..i] == [ks[0]] + ks[1..i];
    } else {
      assert ks[0] !in ks[1..];
      WithoutAbsent(ks[1..], ks[0]);
    }
  }

  /** Removing a key that is not listed changes nothing. */
  lemma {:induction false} WithoutAbsent(ks: seq<string>, k: string)
    requires k !in ks
    ensures Without(ks, k) == ks
  {
    if ks != [] {
      WithoutAbsent(ks[1..], k);
    }
  }

  /** The key order after `setItem(k, ...)`: a new key goes last, an existing one keeps its place. */
  function WithKey(ks: seq<string>, k: string): (r: seq<string>)
    ensures forall x :: x in r <==> x in ks || x == k
    ensures DistinctKeys(ks) ==> DistinctKeys(r)
  {
    if k in ks then ks else ks + [k]
  }

  /** The whole content of the storage at one moment: its keys in order and their values. */
  datatype Snapshot = Snapshot(keys: seq<string>, items: map<string, Item>)

  /** The content after `setItem(k, v)`, or the content unchanged when the write exceeds the quota. */
  function SetItemResult(s: Snapshot, k: string, v: Item, exceedsQuota: bool): (r: Snapshot)
    ensures !exceedsQuota ==> k in r.items && r.items[k] == v
    ensures forall x :: x in r.items && x != k ==> x in s.items && r.items[x] == s.items[x]
    ensures forall x :: x in s.items && x != k ==> x in r.items && r.items[x] == s.items[x]
  {
    if exceedsQuota then s else Snapshot(WithKey(s.keys, k), s.items[k := v])
  }

  class Storage {
    var keys: seq<string>
    var items: map<string, Item>

    /** Every key is listed once, and exactly the listed keys hold a value. */
    ghost predicate Valid()
      reads this
    {
      DistinctKeys(keys) && forall k :: k in items <==> k in keys
    }

    /** The current content. */
    function Current(): Snapshot
      reads this
    {
      Snapshot(keys, items)
    }

    constructor ()
      ensures Valid() && keys == [] && items == map[]
    {
      keys, items := [], map[];
    }

    /** `getItem(k)`: the value under `k`, or nothing. */
    function GetItem(k: string): (r: Option<Item>)
      reads this
      ensures r.Some? <==> k in items
      ensures r.Some? ==> r.value == items[k]
    {
      if k in items then Some(items[k]) else None
    }

    /**
     * `setItem(k, v)`. A write that exceeds the quota throws and changes
     * nothing; whether it does is not decided here, so `exceedsQuota` says it.
     */
    method SetItem(k: string, v: Item, exceedsQuota: bool) returns (ok: bool)
      requires Valid()
      modifies this
      ensures Valid()
      ensures ok == !exceedsQuota
      ensures Current() == SetItemResult(old(Current()), k, v, exceedsQuota)
    {
      ok := !exceedsQuota;
      if ok {
        keys := WithKey(keys, k);
        items := items[k := v];
      }
    }

    /** `removeItem(k)`: drops `k` and its value; later keys move down one place. */
    method RemoveItem(k: string)
      requires Valid()
      modifies this
      ensures Valid()
      ensures items == old(items) - {k} && keys == Without(old(keys), k)
    {
      keys := Without(keys, k);
      items := items - {k};
    }
  }
}
