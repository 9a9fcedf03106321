/**
 * `GoogleNewsCache`: a map from Google News links to the original URL and
 * the time it was stored, with a time to live and a capacity. Expired
 * entries are purged and the oldest surplus entries evicted when the cache
 * is loaded; `get` drops an entry it finds expired; `set` stores and writes
 * the file at once. The clock is the `now` parameter and the cache file is
 * the `disk` field, holding the map last written (or `None` when the file is
 * missing or does not decode to an array).
 */
module Cache {
  import opened Wrappers

  /** One record `['o' => original, 't' => stamp]`; a record loaded from the file may lack either key. */
  datatype Item = Item(o: Option<string>, t: Option<int>)

  const DefaultTtl: int := 604800
  const DefaultMaxEntries: int := 1000

  /** `(int)$item['t']`: a missing stamp reads as 0. */
  function Stamp(item: Item): int {
    item.t.GetOr(0)
  }

  /** The test of `purgeExpired`: no stamp, or older than the time to live. */
  predicate Expired(item: Item, now: int, ttl: int) {
    item.t.None? || now - item.t.value > ttl
  }

  /** The entries the expiry pass keeps while `pending` keys are still to be visited. */
  function Kept(m: map<string, Item>, pending: set<string>, now: int, ttl: int): map<string, Item> {
    map k | k in m && (k in pending || !Expired(m[k], now, ttl)) :: m[k]
  }

  /** The entries that survive the expiry pass. */
  function Live(m: map<string, Item>, now: int, ttl: int): map<string, Item> {
    Kept(m, {}, now, ttl)
  }

  /** How many entries the capacity pass leaves out of `n` live ones. */
  function Capacity(n: nat, maxEntries: int): nat {
    if n <= maxEntries then n else if maxEntries < 0 then 0 else maxEntries
  }

  /**
   * What `purgeExpired` promises: the result is a sub-map of the live
   * entries, as many as the capacity allows, and every live entry it
   * evicted is no newer than any entry it kept.
   */
  predicate Purged(before: map<string, Item>, after: map<string, Item>, now: int, ttl: int, maxEntries: int) {
    var live := Live(before, now, ttl);
    && after.Keys <= live.Keys
    && (forall k :: k in after ==> after[k] == live[k])
    && |after| == Capacity(|live|, maxEntries)
    && (forall k, k' :: k in live && k !in after && k' in after ==> Stamp(live[k]) <= Stamp(live[k']))
  }

  /** `!$item` holds for the empty array. */
  predicate Blank(item: Item) {
    item.o.None? && item.t.None?
  }

  /** The entry `get` finds expired, and therefore removes. */
  predicate Stale(m: map<string, Item>, key: string, now: int, ttl: int) {
    key in m && !Blank(m[key]) && now - Stamp(m[key]) > ttl
  }

  /** What `get` returns. */
  function Lookup(m: map<string, Item>, key: string, now: int, ttl: int): Option<string> {
    if key !in m || Blank(m[key]) || Stale(m, key, now, ttl) then None
    else m[key].o
  }

  /** The map once `get` has looked `key` up at `now`: a stale entry is gone. */
  function AfterLookup(m: map<string, Item>, key: string, now: int, ttl: int): map<string, Item> {
    if Stale(m, key, now, ttl) then m - {key} else m
  }

  /** The first `n` keys of `s`, or all of them when there are fewer. */
  function Take(s: seq<string>, n: nat): seq<string> {
    if n <= |s| then s[..n] else s
  }

  predicate Distinct(s: seq<string>) {
    forall i, j :: 0 <= i < j < |s| ==> s[i] != s[j]
  }

  /** Unsetting the next key of the sorted list removes exactly one live entry. */
  lemma EvictStep(live: map<string, Item>, kept: map<string, Item>, order: seq<string>, i: nat)
    requires Distinct(order) && i < |order| && order[i] in live
    requires forall k :: k in kept <==> k in live && k !in Take(order, i)
    ensures forall k :: k in kept - {order[i]} <==> k in live && k !in Take(order, i + 1)
    ensures |kept - {order[i]}| == |kept| - 1
  {
    assert order[..i + 1] == order[..i] + [order[i]];
    assert order[i] in kept;
  }

  /** Every key of `s` is in `m` and their stamps never decrease along `s`. */
  predicate Ascending(s: seq<string>, m: map<string, Item>) {
    (forall i :: 0 <= i < |s| ==> s[i] in m) &&
    forall i, j :: 0 <= i <= j < |s| ==> Stamp(m[s[i]]) <= Stamp(m[s[j]])
  }

  /** Inserting `k` after every key no newer than it keeps the keys in stamp order. */
  lemma InsertAscending(s: seq<string>, m: map<string, Item>, k: string, p: nat)
    requires Ascending(s, m) && k in m && p <= |s|
    requires forall i :: 0 <= i < p ==> Stamp(m[s[i]]) <= Stamp(m[k])
    requires p < |s| ==> Stamp(m[k]) < Stamp(m[s[p]])
    ensures Ascending(s[..p] + [k] + s[p..], m)
  {
    var t := s[..p] + [k] + s[p..];
    assert forall i :: 0 <= i < |t| ==> t[i] == (if i < p then s[i] else if i == p then k else s[i - 1]);
  }

  lemma InsertDistinct(s: seq<string>, k: string, p: nat)
    requires Distinct(s) && k !in s && p <= |s|
    ensures Distinct(s[..p] + [k] + s[p..])
  {
    var t := s[..p] + [k] + s[p..];
    assert forall i :: 0 <= i < |t| ==> t[i] == (if i < p then s[i] else if i == p then k else s[i - 1]);
  }

  /** `uasort` by stamp followed by `array_keys`: the keys of `m`, each once, oldest first. */
  method KeysByStamp(m: map<string, Item>) returns (order: seq<string>)
    ensures |order| == |m|
    ensures forall k :: k in order <==> k in m
    ensures Distinct(order)
    ensures Ascending(order, m)
  {
    order := [];
    var rest := m.Keys;
    while rest != {}
      invariant rest <= m.Keys
      invariant |order| + |rest| == |m|
      invariant forall k :: k in order <==> k in m && k !in rest
      invariant Distinct(order)
      invariant Ascending(order, m)
      decreases |rest|
    {
      var k :| k in rest;
      var p := 0;
      while p < |order| && Stamp(m[order[p]]) <= Stamp(m[k])
        invariant 0 <= p <= |order|
        invariant forall i :: 0 <= i < p ==> Stamp(m[order[i]]) <= Stamp(m[k])
      {
        p := p + 1;
      }
      InsertAscending(order, m, k, p);
      InsertDistinct(order, k, p);
      order := order[..p] + [k] + order[p..];
      rest := rest - {k};
    }
  }

  /** The `foreach`/`unset` pass of `purgeExpired`; `changed` records whether anything was removed. */
  method DropExpired(m: map<string, Item>, now: int, ttl: int) returns (kept: map<string, Item>, changed: bool)
    ensures kept == Live(m, now, ttl)
    ensures changed <==> kept != m
  {
    kept := m;
    changed := false;
    var pending := m.Keys;
    while pending != {}
      invariant pending <= m.Keys
      invariant kept == Kept(m, pending, now, ttl)
      invariant changed == (kept != m)
      decreases |pending|
    {
      var k :| k in pending;
      if Expired(kept[k], now, ttl) {
        kept := kept - {k};
        changed := true;
      }
      pending := pending - {k};
      assert kept == Kept(m, pending, now, ttl);
    }
  }

  /**
   * The capacity pass of `purgeExpired` on the live entries: sorts the keys
   * by stamp and unsets the first `count - maxEntries` of them.
   */
  method EvictOldest(live: map<string, Item>, maxEntries: int) returns (kept: map<string, Item>)
    requires |live| > maxEntries
    ensures kept.Keys <= live.Keys
    ensures forall k :: k in kept ==> kept[k] == live[k]
    ensures |kept| == Capacity(|live|, maxEntries)
    ensures forall k, k' :: k in live && k !in kept && k' in kept ==> Stamp(live[k]) <= Stamp(live[k'])
  {
    kept := live;
    var order := KeysByStamp(live);
    var excess := |live| - maxEntries;
    for i := 0 to excess
      invariant forall k :: k in kept <==> k in live && k !in Take(order, i)
      invariant forall k :: k in kept ==> kept[k] == live[k]
      invariant |kept| == |live| - |Take(order, i)|
    {
      // Past the end of the key list, `$keys[$i]` is null and names no remaining key.
      if i < |order| {
        EvictStep(live, kept, order, i);
        kept := kept - {order[i]};
      }
    }
    assert |Take(order, excess)| == |live| - Capacity(|live|, maxEntries);
    EvictedAreOldest(live, kept, order, excess);
  }

  class GoogleNewsCache {
    var data: map<string, Item>
    var dirty: bool
    var disk: Option<map<string, Item>>
    const ttl: int
    const maxEntries: int

    /**
     * Every record carries a stamp, so none is `Blank`: loading leaves the
     * cache so, and `get` and `set` keep it so.
     */
    predicate Stamped()
      reads this
    {
      forall k :: k in data ==> data[k].t.Some?
    }

    /** Loads the file (an empty map when it is missing or malformed), then purges. */
    constructor(disk: Option<map<string, Item>>, now: int, ttl: int := DefaultTtl, maxEntries: int := DefaultMaxEntries)
      ensures this.ttl == ttl && this.maxEntries == maxEntries && this.disk == disk
      ensures Purged(disk.GetOr(map[]), data, now, ttl, maxEntries)
      ensures dirty == (data != disk.GetOr(map[]) || |Live(disk.GetOr(map[]), now, ttl)| > maxEntries)
      ensures Stamped()
    {
      this.ttl := ttl;
      this.maxEntries := maxEntries;
      this.disk := disk;
      data := disk.GetOr(map[]);
      dirty := false;
      new;
      PurgeExpired(now);
    }

    /** Drops expired entries, then, above capacity, as many of the oldest as needed. */
    method PurgeExpired(now: int)
      modifies this
      ensures Purged(old(data), data, now, ttl, maxEntries)
      ensures dirty == (old(dirty) || data != old(data) || |Live(old(data), now, ttl)| > maxEntries)
      ensures disk == old(disk)
      ensures Stamped()
    {
      var changed;
      data, changed := DropExpired(data, now, ttl);
      if changed {
        dirty := true;
      }
      if |data| > maxEntries {
        data := EvictOldest(data, maxEntries);
        dirty := true;
      }
    }

    /** `get`: the stored URL of a live entry; an expired one is removed and marks the cache dirty. */
    method Get(key: string, now: int) returns (r: Option<string>)
      modifies this
      ensures r == Lookup(old(data), key, now, ttl)
      ensures data == AfterLookup(old(data), key, now, ttl)
      ensures dirty == (old(dirty) || Stale(old(data), key, now, ttl))
      ensures disk == old(disk)
      ensures old(Stamped()) ==> Stamped()
    {
      if key !in data || Blank(data[key]) {
        return None;
      }
      if now - Stamp(data[key]) > ttl {
        data := data - {key};
        dirty := true;
        return None;
      }
      return data[key].o;
    }

    /** `set`: stores the URL stamped `now`, evicting nothing, and writes the file. */
    method Set(key: string, url: string, now: int)
      modifies this
      ensures data == old(data)[key := Item(Some(url), Some(now))]
      ensures data.Keys == old(data).Keys + {key}
      ensures !dirty && disk == Some(data)
      ensures old(Stamped()) ==> Stamped()
    {
      data := data[key := Item(Some(url), Some(now))];
      dirty := true;
      FlushIfNeeded();
    }

    /** `flushIfNeeded`: writes the map to the file only when dirty, and is clean afterwards. */
    method FlushIfNeeded()
      modifies this
      ensures data == old(data) && !dirty
      ensures disk == (if old(dirty) then Some(data) else old(disk))
    {
      if dirty {
        disk := Some(data);
        dirty := false;
      }
    }
  }

  /** After the capacity pass, the evicted live entries are the oldest. */
  lemma EvictedAreOldest(live: map<string, Item>, data: map<string, Item>, order: seq<string>, excess: nat)
    requires forall k :: k in order <==> k in live
    requires Distinct(order) && Ascending(order, live)
    requires forall k :: k in data <==> k in live && k !in Take(order, excess)
    ensures forall k, k' :: k in live && k !in data && k' in data ==> Stamp(live[k]) <= Stamp(live[k'])
  {
    var cut := Take(order, excess);
    assert forall n :: 0 <= n < |cut| ==> cut[n] == order[n];
    forall k, k' | k in live && k !in data && k' in data
      ensures Stamp(live[k]) <= Stamp(live[k'])
    {
      var i :| 0 <= i < |cut| && cut[i] == k;
      var j :| 0 <= j < |order| && order[j] == k';
      assert j >= |cut|;
    }
  }

  // ---------------------------------------------------------------------------
  // Properties

  /** After a purge, every entry is stamped, within the time to live, and `get` returns its URL. */
  lemma PurgedAreLive(before: map<string, Item>, after: map<string, Item>, now: int, ttl: int, maxEntries: int)
    requires Purged(before, after, now, ttl, maxEntries)
    ensures forall k :: k in after ==> after[k].t.Some? && now - after[k].t.value <= ttl
    ensures forall k :: k in after ==> Lookup(after, k, now, ttl) == after[k].o
    ensures forall k :: !Stale(after, k, now, ttl)
    ensures maxEntries >= 0 ==> |after| <= maxEntries
  {
  }

  /** Within capacity, a purge evicts nothing beyond the expired entries. */
  lemma PurgeWithinCapacity(before: map<string, Item>, after: map<string, Item>, now: int, ttl: int, maxEntries: int)
    requires Purged(before, after, now, ttl, maxEntries)
    requires |Live(before, now, ttl)| <= maxEntries
    ensures after == Live(before, now, ttl)
  {
    var live := Live(before, now, ttl);
    var gone := live.Keys - after.Keys;
    assert live.Keys == after.Keys + gone;
    assert |live.Keys| == |after.Keys| + |gone|;
    assert |gone| == 0;
  }

  /** A missing or blank entry reads as null. */
  lemma LookupMissing(m: map<string, Item>, key: string, now: int, ttl: int)
    requires key !in m || Blank(m[key])
    ensures Lookup(m, key, now, ttl) == None && !Stale(m, key, now, ttl)
  {
  }

  /** An entry is still returned at an age of exactly the time to live, and dropped one second later. */
  lemma LookupAgeBoundary(m: map<string, Item>, key: string, o: string, stamp: int, ttl: int)
    requires key in m && m[key] == Item(Some(o), Some(stamp))
    ensures Lookup(m, key, stamp + ttl, ttl) == Some(o)
    ensures Lookup(m, key, stamp + ttl + 1, ttl) == None && Stale(m, key, stamp + ttl + 1, ttl)
  {
  }

  /** A stored URL is read back while it is within the time to live and not after. */
  lemma SetThenGet(m: map<string, Item>, key: string, url: string, now: int, later: int, ttl: int)
    ensures var m' := m[key := Item(Some(url), Some(now))];
      Lookup(m', key, later, ttl) == (if later - now <= ttl then Some(url) else None)
  {
  }

  /** Storing one key leaves what every other key reads unchanged. */
  lemma SetLeavesOthers(m: map<string, Item>, key: string, other: string, url: string, now: int, later: int, ttl: int)
    requires other != key
    ensures Lookup(m[key := Item(Some(url), Some(now))], other, later, ttl) == Lookup(m, other, later, ttl)
  {
  }
}
