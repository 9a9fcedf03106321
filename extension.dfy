/**
 * `GoogleNewsCleanExtension`: the settings it keeps in the user
 * configuration (selected feeds, cache time to live, cache capacity), their
 * defaults and lower bounds, and `cleanEntry`, which rewrites the link of a
 * Google News entry of a selected feed to the original URL, through the
 * cache. The entry is reduced to its feed identifier and link; the cache
 * file's contents and the clock are parameters.
 */
module Extension {
  import opened Wrappers
  import opened Strings
  import opened Cache
  import opened Cleaner

  const MinTtl: int := 60
  const MinMaxEntries: int := 10

  /** The parts of a feed entry `cleanEntry` reads and writes. */
  datatype Entry = Entry(feedId: string, link: string)

  /** The parameters of a configuration request; `None` for a missing parameter (or a feed list that is not an array). */
  datatype ConfigRequest = ConfigRequest(isPost: bool, feeds: Option<map<string, string>>, ttl: Option<int>, maxEntries: Option<int>)

  /** `if ($v < $floor) { $v = $floor; }`. */
  function AtLeast(v: int, floor: int): (r: int)
    ensures r >= floor && r >= v
    ensures r == v || r == floor
  {
    if v < floor then floor else v
  }

  /** The extension's fields of the user configuration; `None` stands for null. */
  class UserConf {
    var feeds: Option<map<string, string>>
    var ttl: Option<int>
    var maxEntries: Option<int>

    constructor(feeds: Option<map<string, string>>, ttl: Option<int>, maxEntries: Option<int>)
      ensures this.feeds == feeds && this.ttl == ttl && this.maxEntries == maxEntries
    {
      this.feeds := feeds;
      this.ttl := ttl;
      this.maxEntries := maxEntries;
    }

    /** `init`: a missing setting takes its default, a present one is kept. */
    method Init()
      modifies this
      ensures feeds == Some(old(feeds).GetOr(map[]))
      ensures ttl == Some(old(ttl).GetOr(DefaultTtl))
      ensures maxEntries == Some(old(maxEntries).GetOr(DefaultMaxEntries))
    {
      if feeds.None? {
        feeds := Some(map[]);
      }
      if ttl.None? {
        ttl := Some(DefaultTtl);
      }
      if maxEntries.None? {
        maxEntries := Some(DefaultMaxEntries);
      }
    }

    /** `handleConfigureAction`: on a POST, stores the feed selection and the bounded cache settings. */
    method Configure(request: ConfigRequest)
      modifies this
      ensures !request.isPost ==> feeds == old(feeds) && ttl == old(ttl) && maxEntries == old(maxEntries)
      ensures request.isPost ==>
        && feeds == Some(request.feeds.GetOr(map[]))
        && ttl == Some(AtLeast(request.ttl.GetOr(DefaultTtl), MinTtl))
        && maxEntries == Some(AtLeast(request.maxEntries.GetOr(DefaultMaxEntries), MinMaxEntries))
    {
      if request.isPost {
        var cleanFeeds := request.feeds.GetOr(map[]);
        feeds := Some(cleanFeeds);
        var t := request.ttl.GetOr(DefaultTtl);
        var m := request.maxEntries.GetOr(DefaultMaxEntries);
        if t < MinTtl { t := MinTtl; }
        if m < MinMaxEntries { m := MinMaxEntries; }
        ttl := Some(t);
        maxEntries := Some(m);
      }
    }
  }

  /** The feed is ticked in the selection. */
  predicate Selected(feeds: Option<map<string, string>>, feedId: string) {
    feeds.Some? && feedId in feeds.value && feeds.value[feedId] == "1"
  }

  /** `cleanEntry` acts on an entry of a selected feed whose link mentions `news.google.com`. */
  predicate Handles(feeds: Option<map<string, string>>, entry: Entry) {
    Selected(feeds, entry.feedId) && Contains(entry.link, NewsHost)
  }

  /** How `cleanEntry` settles a link it handles. */
  datatype Decision = CacheHit(url: string) | Cleaned(url: string) | Failed

  /**
   * A truthy cached value wins; otherwise the cleaner's result `cleaned`,
   * when it is truthy and differs from the link.
   */
  function Decide(link: string, data: map<string, Item>, now: int, ttl: int, cleaned: Option<string>): Decision {
    var cached := Lookup(data, link, now, ttl);
    if TruthyOpt(cached) then CacheHit(cached.value)
    else
      if TruthyOpt(cleaned) && cleaned.value != link then Cleaned(cleaned.value) else Failed
  }

  /** The cache file as it was read: an empty map when missing or malformed. */
  function Loaded(disk: Option<map<string, Item>>): map<string, Item> {
    disk.GetOr(map[])
  }

  /** Whether loading left the cache dirty, so that it is written back when the cache object goes away. */
  predicate LoadDirty(disk: Option<map<string, Item>>, data: map<string, Item>, now: int, ttl: int, maxEntries: int) {
    data != Loaded(disk) || |Live(Loaded(disk), now, ttl)| > maxEntries
  }

  /**
   * The entry and the cache file once `cleanEntry` has settled on `d`:
   * `data` is the map as `get` left it, `dirty` whether loading or `get`
   * changed it, and `stamp` the time `set` reads when the link is cleaned.
   */
  function Applied(entry: Entry, data: map<string, Item>, dirty: bool, disk: Option<map<string, Item>>, stamp: int, d: Decision)
    : (Entry, Option<map<string, Item>>)
  {
    match d
    case CacheHit(url) => (entry.(link := url), if dirty then Some(data) else disk)
    case Cleaned(url) => (entry.(link := url), Some(data[entry.link := Item(Some(url), Some(stamp))]))
    case Failed => (entry, if dirty then Some(data) else disk)
  }

  /**
   * `cleanEntry`, given the extension's settings as read from the user
   * configuration. The code reads the clock three times: when the cache is
   * loaded (`loadTime`), in `get` (`getTime`) and in `set` (`setTime`), with
   * the cleaner's network calls in between. The cache is loaded from `disk`,
   * consulted, and written when the link is cleaned or when loading or `get`
   * changed it (the destructor's flush); `diskAfter` is the cache file
   * afterwards and `data` the map as loaded.
   */
  method CleanEntry(entry: Entry, feeds: Option<map<string, string>>, ttlSetting: Option<int>, maxSetting: Option<int>,
                    disk: Option<map<string, Item>>, loadTime: int, getTime: int, setTime: int, env: Env)
    returns (result: Entry, diskAfter: Option<map<string, Item>>, ghost data: map<string, Item>)
    ensures !Handles(feeds, entry) ==> result == entry && diskAfter == disk
    ensures Handles(feeds, entry) ==>
      var ttl, maxEntries := ttlSetting.GetOr(DefaultTtl), maxSetting.GetOr(DefaultMaxEntries);
      var link := entry.link;
      && Purged(Loaded(disk), data, loadTime, ttl, maxEntries)
      && (result, diskAfter) ==
           Applied(entry, AfterLookup(data, link, getTime, ttl),
                   LoadDirty(disk, data, loadTime, ttl, maxEntries) || Stale(data, link, getTime, ttl),
                   disk, setTime, Decide(link, data, getTime, ttl, ExtractResult(link, env)))
  {
    result, diskAfter, data := entry, disk, map[];
    if !Selected(feeds, entry.feedId) || !Contains(entry.link, NewsHost) {
      return;
    }
    var ttl := ttlSetting.GetOr(DefaultTtl);
    var maxEntries := maxSetting.GetOr(DefaultMaxEntries);
    var cache := new GoogleNewsCache(disk, loadTime, ttl, maxEntries);
    data := cache.data;
    var d := Consult(cache, entry.link, getTime, setTime, env);
    if !d.Failed? {
      result := entry.(link := d.url);
    }
    // The destructor's flush.
    cache.FlushIfNeeded();
    diskAfter := cache.disk;
  }

  /**
   * The middle of `cleanEntry`: a truthy cached URL is taken; otherwise the
   * cleaner runs, and a truthy result that differs from the link is taken
   * and stored. `get` may find the entry expired and remove it.
   */
  method Consult(cache: GoogleNewsCache, url: string, getTime: int, setTime: int, env: Env) returns (d: Decision)
    modifies cache
    ensures d == Decide(url, old(cache.data), getTime, cache.ttl, ExtractResult(url, env))
    ensures d.Cleaned? ==>
      && cache.data == AfterLookup(old(cache.data), url, getTime, cache.ttl)[url := Item(Some(d.url), Some(setTime))]
      && !cache.dirty && cache.disk == Some(cache.data)
    ensures !d.Cleaned? ==>
      && cache.data == AfterLookup(old(cache.data), url, getTime, cache.ttl)
      && cache.dirty == (old(cache.dirty) || Stale(old(cache.data), url, getTime, cache.ttl))
      && cache.disk == old(cache.disk)
  {
    var cached := cache.Get(url, getTime);
    if TruthyOpt(cached) {
      return CacheHit(cached.value);
    }
    var cleanUrl := ExtractOriginalUrl(url, env);
    if TruthyOpt(cleanUrl) && cleanUrl.value != url {
      cache.Set(url, cleanUrl.value, setTime);
      return Cleaned(cleanUrl.value);
    }
    return Failed;
  }

  // ---------------------------------------------------------------------------
  // Properties

  /** A stored setting at or above its floor survives a resubmission unchanged. */
  lemma AtLeastKeeps(v: int, floor: int)
    ensures AtLeast(AtLeast(v, floor), floor) == AtLeast(v, floor)
    ensures v >= floor ==> AtLeast(v, floor) == v
  {
  }

  /** On a cache hit the cleaner plays no part. */
  lemma HitIgnoresCleaner(link: string, data: map<string, Item>, now: int, ttl: int, cleaned: Option<string>, cleaned': Option<string>)
    requires TruthyOpt(Lookup(data, link, now, ttl))
    ensures Decide(link, data, now, ttl, cleaned) == Decide(link, data, now, ttl, cleaned')
                                                  == CacheHit(Lookup(data, link, now, ttl).value)
  {
  }

  /** A link is only ever replaced by a truthy value: the cached one, or a cleaned one that differs from it. */
  lemma DecisionShape(link: string, data: map<string, Item>, now: int, ttl: int, cleaned: Option<string>)
    ensures match Decide(link, data, now, ttl, cleaned)
      case CacheHit(url) => Truthy(url) && Lookup(data, link, now, ttl) == Some(url)
      case Cleaned(url) => Truthy(url) && url != link && cleaned == Some(url) && !TruthyOpt(Lookup(data, link, now, ttl))
      case Failed => !TruthyOpt(Lookup(data, link, now, ttl)) && !(TruthyOpt(cleaned) && cleaned.value != link)
  {
  }

  /**
   * An entry that `get` finds expired (it was live when the cache was
   * loaded, but the clock has moved on) is never a hit; `get` marks the
   * cache dirty, so the cache file is always rewritten: with the cleaned URL stamped at `set` time, or
   * without the expired entry.
   */
  lemma ExpiredAtGet(entry: Entry, data: map<string, Item>, disk: Option<map<string, Item>>,
                     getTime: int, setTime: int, ttl: int, cleaned: Option<string>)
    requires Stale(data, entry.link, getTime, ttl)
    ensures var d := Decide(entry.link, data, getTime, ttl, cleaned);
      && !d.CacheHit?
      && Applied(entry, AfterLookup(data, entry.link, getTime, ttl), true, disk, setTime, d).1
         == Some(if d.Cleaned? then data[entry.link := Item(Some(d.url), Some(setTime))] else data - {entry.link})
  {
    var d := Decide(entry.link, data, getTime, ttl, cleaned);
    if d.Cleaned? {
      var v := Item(Some(d.url), Some(setTime));
      assert (data - {entry.link})[entry.link := v] == data[entry.link := v];
    }
  }

  /**
   * A link cleaned once is a cache hit with the same URL at any later time
   * within the time to live of its `set` stamp, once the next load keeps
   * every live entry.
   */
  lemma SecondCleanHits(link: string, data: map<string, Item>, url: string, getTime: int, setTime: int, later: int,
                        ttl: int, maxEntries: int, reloaded: map<string, Item>, cleaned: Option<string>, cleaned': Option<string>)
    requires Decide(link, data, getTime, ttl, cleaned) == Cleaned(url)
    requires setTime <= later <= setTime + ttl
    requires var stored := AfterLookup(data, link, getTime, ttl)[link := Item(Some(url), Some(setTime))];
      Purged(stored, reloaded, later, ttl, maxEntries) && |Live(stored, later, ttl)| <= maxEntries
    ensures Decide(link, reloaded, later, ttl, cleaned') == CacheHit(url)
  {
    var stored := AfterLookup(data, link, getTime, ttl)[link := Item(Some(url), Some(setTime))];
    PurgeWithinCapacity(stored, reloaded, later, ttl, maxEntries);
    assert link in reloaded;
  }
}
