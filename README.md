# Google News link resolver — a Dafny model

This project models the part of the FreshRSS Google News extensions that
turns a Google News RSS link (`https://news.google.com/rss/articles/<id>`)
back into the link of the original article, and the cache that remembers
the answers. It covers four PHP files:

- `lib/GoogleNewsCleaner.php` (module `Cleaner`, with `Base64` and
  `BatchExecute`). `extractOriginalUrl` checks the host and the
  `articles/<id>` path shape, then decodes the identifier as strict Base64.
  It strips the `08 13 22` prefix and the `D2 01 00` suffix and reads the
  length byte and the payload. A payload starting with `AU_yqL` is sent to
  the batch-execute RPC (`decodeNewFormat`, `fetchDecodedBatchExecute`) and
  then to redirect following (`followRedirect`). Any other payload is
  accepted when `filter_var` accepts it.
- `extensions/googleNewsClean/lib/GoogleNewsCache.php` (module `Cache`).
  The class `GoogleNewsCache` maps links to `{o, t}` records. On load it
  purges expired records and then the oldest surplus ones. `get` drops a
  record it finds expired. `set` stores a record and writes the file at
  once. A dirty cache is written back when the object goes away.
- `extension.php` (module `Extension`). Covers the three user settings,
  with their defaults and lower bounds, and `cleanEntry`. That method
  rewrites the link of an entry of a selected feed through the cache and
  the cleaner.
- `GoogleNewsCleanup/index.php` (module `Cleanup`). The older plugin:
  - the link filter `clean_google_news_url`;
  - a redirect extractor that prefers the last `Location` header and falls
    back to the first absolute link of the page;
  - the `isValidUrl` prefix test;
  - `decodeFromBase64`, which reads the identifier as URL-safe Base64 and
    picks the first `http(s)://` run out of the decoded bytes.

`Strings` holds the PHP string functions the code uses, as far as the code
needs them: `strpos`, `explode`, `implode`, `trim`, `%d` and truthiness.
`Wrappers` holds `Option`.

PHP strings are byte strings. Here a `string` stands for one, with each
`char` standing for one byte. Where the code loops (building the envelopes,
scanning the RPC response, appending payload bytes, the purge passes, the
sort by stamp) the model is a method with loop invariants. It is proved
against a function of its inputs, and the properties are lemmas about that
function. The cache is a class whose methods update `data`, `dirty` and
`disk`, the contents of the cache file.

Two behaviours of the code are worth knowing before reading the
contracts:

- `set` stores and writes the file but never evicts. Capacity is enforced
  only when the cache is loaded, so a cache can hold more than
  `maxEntries` records until the next load (`Cache.GoogleNewsCache.Set`,
  `Extension.SecondCleanHits`).
- The payload length is the first byte taken as it is. Two bytes are only
  skipped when that byte is `0x80` or more. The slice is also cut at the
  end of the buffer. For a protobuf varint length this is right for
  payloads shorter than 256 bytes. From 256 bytes on, only
  `128 + n % 128` bytes are kept (`Cleaner.PayloadAfterVarint`).

## Model

| member | source | states |
|---|---|---|
| Strings.IndexOfFinds | lib/GoogleNewsCleaner.php:162-166 | `strpos` reports the first position where the needle occurs, with no occurrence before it, and reports none only when the needle occurs nowhere |
| Strings.ContainsIffOccurs | extension.php:69 | `strpos(...) !== false` holds exactly when the needle occurs somewhere |
| Strings.BeforeFirstFree | lib/GoogleNewsCleaner.php:170-171 | the text before the first footer never contains a footer |
| Strings.JoinSplit | lib/GoogleNewsCleaner.php:22 | `implode` with the separator undoes `explode` |
| Strings.SplitPiecesFree | lib/GoogleNewsCleaner.php:22 | no piece produced by `explode` contains the separator |
| Strings.TrimLeftRemoves | lib/GoogleNewsCleaner.php:22 | `trim` removes leading slashes: the result does not start with one, and the input is slashes followed by the result |
| Strings.TrimRightRemoves | lib/GoogleNewsCleaner.php:22 | `trim` removes trailing slashes: the result does not end with one, and the input is the result followed by slashes |
| Strings.LastTwoOfTrimmed | lib/GoogleNewsCleaner.php:22-29 | for a path `<pre>/<x>/<last>`, the last two pieces of the trimmed, exploded path are `x` and `last`, whatever `pre` is |
| Strings.DecimalRoundTrip | lib/GoogleNewsCleaner.php:122-128 | the `%d` rendering of the envelope index reads back as the same number |
| Strings.DecimalInjective | lib/GoogleNewsCleaner.php:122-128 | distinct indices render differently |
| Base64.DecodeEncode | lib/GoogleNewsCleaner.php:32 | strict `base64_decode` of the padded standard encoding of any byte string gives that string back |
| Base64.DecodeStrict | lib/GoogleNewsCleaner.php:32-36 | strict `base64_decode` fails on any input holding a character that is neither in the alphabet, nor `=`, nor a skipped blank |
| Base64.DecodeEncodeSymbols | lib/GoogleNewsCleaner.php:32 | the unpadded alphabet encoding decodes back to the bytes, group by group, with the short final group handled |
| Base64.EncodeSymbolsShape | lib/GoogleNewsCleaner.php:32 | the encoding uses only alphabet characters, and its length modulo 4 is what the strict decoder accepts for that many bytes |
| BatchExecute.BuildEnvelopes | lib/GoogleNewsCleaner.php:120-131 | the loop produces one envelope per identifier, with envelope `i` carrying identifier `i` and index `i + 1` |
| BatchExecute.EnvelopeInjective | lib/GoogleNewsCleaner.php:121-131 | two envelopes of backslash-free identifiers are equal only for the same identifier at the same index |
| BatchExecute.SingleIdPayload | lib/GoogleNewsCleaner.php:120-133 | the call for one article sends `[[` + one envelope numbered 1 + `]]` |
| BatchExecute.ScanResponse | lib/GoogleNewsCleaner.php:156-181 | the header/footer loop returns exactly the outcome of the scan function (URLs in order, footer-not-found, or no-URLs) |
| BatchExecute.FetchDecodedBatchExecute | lib/GoogleNewsCleaner.php:118-187 | the payload is the envelopes joined inside `[[ ]]`; a non-200 status is an HTTP error, and a 200 reply is scanned |
| BatchExecute.ScanFooterFree | lib/GoogleNewsCleaner.php:162-174 | no URL the scan collects contains the footer |
| BatchExecute.ScanRecord | lib/GoogleNewsCleaner.php:162-173 | one turn of the loop over a record preceded by header-free text: it takes the URL between the header and the first footer, and goes on after that footer |
| BatchExecute.ScanResponseThen | lib/GoogleNewsCleaner.php:156-174 | scanning any number of records with header-free text around them, then any tail, collects their URLs in order and goes on in the last gap and the tail |
| BatchExecute.ScanResponseOf | lib/GoogleNewsCleaner.php:156-174 | a response whose records are separated by header-free text and whose URLs hold no footer scans back to exactly its URLs, in order |
| BatchExecute.ScanOutcomeResponse | lib/GoogleNewsCleaner.php:156-181 | such a response with at least one record is a success carrying exactly its URLs |
| BatchExecute.NoHeaderFails | lib/GoogleNewsCleaner.php:156-178 | a response without any header fails with "no URLs found" |
| BatchExecute.FooterMissingFails | lib/GoogleNewsCleaner.php:162-168 | a header with no footer after it fails the call with "footer not found", whatever complete records come before it |
| Cleaner.Payload | lib/GoogleNewsCleaner.php:57-66 | the payload is at most `len` bytes read from offset 1, or from offset 2 when `len >= 0x80`, and is cut at the end of the buffer |
| Cleaner.BytesToString | lib/GoogleNewsCleaner.php:67-70 | the `chr` loop gives a string of the same length whose characters are the bytes |
| Cleaner.FollowRedirect | lib/GoogleNewsCleaner.php:266-276 | the result is the effective URL exactly when it is truthy and differs from the link, otherwise nothing |
| Cleaner.DecodeNewFormat | lib/GoogleNewsCleaner.php:98-116 | the result is the first URL of a successful batch call, otherwise nothing |
| Cleaner.ExtractOriginalUrl | lib/GoogleNewsCleaner.php:9-96 | the step-by-step method computes the resolution function on which the lemmas below are proved |
| Cleaner.OnlyNewsHost | lib/GoogleNewsCleaner.php:11-20 | a link that does not parse, lacks host or path, or has another host resolves to nothing |
| Cleaner.OnlyArticlePaths | lib/GoogleNewsCleaner.php:22-27 | a path with fewer than two segments, or whose second-to-last segment is not `articles`, resolves to nothing |
| Cleaner.ArticleSegmentOf | lib/GoogleNewsCleaner.php:22-29 | the identifier of `<anything>/articles/<id>` is `id` |
| Cleaner.UrlSafeIdentifierRejected | lib/GoogleNewsCleaner.php:29-36 | an identifier containing `-` or `_` fails the strict decode and resolves to nothing |
| Cleaner.StripMarkersFramed | lib/GoogleNewsCleaner.php:38-48 | bytes framed by the prefix and the suffix come out exactly as they went in |
| Cleaner.StripMarkersUnframed | lib/GoogleNewsCleaner.php:38-48 | bytes carrying neither marker are left alone |
| Cleaner.StripMarkers | lib/GoogleNewsCleaner.php:38-48 | stripping leaves a contiguous run of the decoded bytes: three fewer at the front exactly when the prefix was there, and three fewer at the end exactly when what is left after the prefix ends with the suffix |
| Cleaner.EmptyAfterStripping | lib/GoogleNewsCleaner.php:51-55 | an identifier that is empty once the markers are stripped resolves to nothing |
| Cleaner.PayloadAfterVarint | lib/GoogleNewsCleaner.php:57-66 | after a protobuf varint length, the payload is the whole URL when it is shorter than 256 bytes, and only its first `128 + n % 128` bytes otherwise |
| Cleaner.SentinelNeedsRemote | lib/GoogleNewsCleaner.php:73 | a payload starting with `AU_yqL` always takes the remote route |
| Cleaner.SentinelRoute | lib/GoogleNewsCleaner.php:73-81 | for such a payload the answer is the truthy first batch URL, or else the redirect result |
| Cleaner.LegacyRoute | lib/GoogleNewsCleaner.php:83-90 | any other payload is the answer exactly when `filter_var` accepts it; otherwise there is none |
| Cleaner.LegacyDecodeRoundTrip | lib/GoogleNewsCleaner.php:29-70 | the identifier built from a URL shorter than 256 bytes (prefix, length, URL, suffix, Base64) decodes back to that URL |
| Cleaner.LegacyLinkResolves | lib/GoogleNewsCleaner.php:9-96 | a news.google.com link carrying such an identifier resolves to the URL when the URL is valid and does not start with the sentinel |
| Cleaner.NewFormatFromReply | lib/GoogleNewsCleaner.php:98-104 | when the batch reply carries a non-empty list of footer-free URLs, each between a header and a footer and with header-free text around the records, the newer format resolves to the first one |
| Cleaner.NewFormatHttpFailure | lib/GoogleNewsCleaner.php:100-110 | a batch reply with any status other than 200 gives nothing |
| Cache.KeysByStamp | extensions/googleNewsClean/lib/GoogleNewsCache.php:41-43 | the sorted key list holds every key exactly once, with stamps never decreasing |
| Cache.DropExpired | extensions/googleNewsClean/lib/GoogleNewsCache.php:28-38 | the expiry pass keeps exactly the records that have a stamp within the time to live; `changed` holds exactly when something was removed |
| Cache.EvictOldest | extensions/googleNewsClean/lib/GoogleNewsCache.php:40-48 | the capacity pass keeps unchanged records up to the capacity, and every evicted record is no newer than every kept one |
| Cache.EvictedAreOldest | extensions/googleNewsClean/lib/GoogleNewsCache.php:41-46 | unsetting a prefix of the stamp-sorted keys evicts only records no newer than the survivors |
| Cache.GoogleNewsCache.constructor | extensions/googleNewsClean/lib/GoogleNewsCache.php:9-25 | the loaded map (empty when the file is missing or malformed) is purged; the cache is dirty exactly when the purge removed something or capacity was exceeded |
| Cache.GoogleNewsCache.PurgeExpired | extensions/googleNewsClean/lib/GoogleNewsCache.php:27-49 | the new map is a purge of the old one, dirtiness is set as the code sets it, and the file is untouched |
| Cache.GoogleNewsCache.Get | extensions/googleNewsClean/lib/GoogleNewsCache.php:51-62 | the lookup result; an expired, non-blank record is removed and marks the cache dirty, and nothing else changes |
| Cache.GoogleNewsCache.Set | extensions/googleNewsClean/lib/GoogleNewsCache.php:64-68 | the key maps to the URL stamped now, no key is evicted, and the file holds the new map |
| Cache.GoogleNewsCache.FlushIfNeeded | extensions/googleNewsClean/lib/GoogleNewsCache.php:70-80 | the file receives the map exactly when the cache was dirty, and the cache is clean afterwards |
| Cache.PurgedAreLive | extensions/googleNewsClean/lib/GoogleNewsCache.php:27-49 | after a purge every record is stamped and fresh, `get` returns its URL, nothing is stale, and a non-negative capacity is respected |
| Cache.PurgeWithinCapacity | extensions/googleNewsClean/lib/GoogleNewsCache.php:39-48 | within capacity, a purge removes only the expired records |
| Cache.LookupMissing | extensions/googleNewsClean/lib/GoogleNewsCache.php:52-55 | a missing or empty record reads as null and is not removed |
| Cache.LookupAgeBoundary | extensions/googleNewsClean/lib/GoogleNewsCache.php:56-61 | a record is still returned at an age of exactly the time to live, and dropped one second later |
| Cache.SetThenGet | extensions/googleNewsClean/lib/GoogleNewsCache.php:51-68 | a stored URL reads back exactly while it is within the time to live |
| Cache.SetLeavesOthers | extensions/googleNewsClean/lib/GoogleNewsCache.php:64-65 | storing one key leaves what every other key reads unchanged |
| Cleanup.IsValidUrl | GoogleNewsCleanup/index.php:123-129 | the two `strpos(...) === 0` tests hold exactly when the string begins with `http://` or `https://` |
| Cleanup.CleanOnlyArticleLinks | GoogleNewsCleanup/index.php:28-39 | a link without `news.google.com/rss/articles/` passes through untouched |
| Cleanup.CleanGoogleNewsUrl | GoogleNewsCleanup/index.php:28-39 | the filter changes a link exactly when the link holds the article marker and extraction gives a different URL, and then it returns that URL |
| Cleanup.ExtractFromGoogleNews | GoogleNewsCleanup/index.php:52-115 | any answer is either the valid last `Location` value or the page's first absolute link when that is not on news.google.com; with no headers there is no answer |
| Cleanup.LocationFirst | GoogleNewsCleanup/index.php:80-92 | a valid last `Location` value, whenever there is one, is the answer and the page is not consulted |
| Cleanup.LastRedirectWins | GoogleNewsCleanup/index.php:80-91 | with several `Location` headers the last one is taken when it is valid |
| Cleanup.PadCompletes | GoogleNewsCleanup/index.php:146 | padding completes the identifier to a multiple of four with at most three `=` |
| Cleanup.ToStandardInvertsUrlSafe | GoogleNewsCleanup/index.php:147 | `strtr('-_', '+/')` undoes the URL-safe mapping and leaves standard text alone |
| Cleanup.ArticleTokenShape | GoogleNewsCleanup/index.php:142-143 | a match of the identifier pattern is a non-empty run of identifier characters that occurs right after the marker |
| Cleanup.FirstHttpRunShape | GoogleNewsCleanup/index.php:153-154 | a match of `https?://[^\x00\s]+` starts with a scheme, has at least one character after it, and holds no NUL or blank |
| Cleanup.DecodeFromBase64 | GoogleNewsCleanup/index.php:138-160 | whatever `decodeFromBase64` returns passes `isValidUrl` and holds no NUL or blank |
| Cleanup.DecodeFromBase64RoundTrip | GoogleNewsCleanup/index.php:138-160 | a link carrying the URL-safe, unpadded encoding of a URL after the marker decodes back to that URL |
| Extension.AtLeast | extension.php:29-30 | the bounded setting is at least the floor and at least the input, and is one of the two |
| Extension.AtLeastKeeps | extension.php:27-32 | a setting at or above its floor survives a resubmission unchanged, and bounding twice equals bounding once |
| Extension.UserConf.Init | extension.php:7-15 | each missing setting takes its default (no feeds, 604800 s, 1000 entries), and each present one is kept |
| Extension.UserConf.Configure | extension.php:19-43 | only a POST changes the settings; a POST stores the feed selection (an empty one when it is not an array) and the time to live and capacity raised to 60 and 10 |
| Extension.CleanEntry | extension.php:58-101 | an entry outside the selected feeds, or without `news.google.com` in its link, is returned unchanged with the file untouched; otherwise the cache is loaded and purged at the load time, looked up at the `get` time (which may remove an expired record and mark the cache dirty) and, when cleaned, stamped at the `set` time, and the entry and the file are as the decision prescribes |
| Extension.Consult | extension.php:78-96 | the decision at the `get` time: a truthy cached URL, else a truthy cleaned URL that differs from the link (stored with the `set` time and written), else failure; otherwise the cache changes only by `get` removing an expired record |
| Extension.HitIgnoresCleaner | extension.php:79-84 | on a cache hit the cleaner's answer plays no part |
| Extension.DecisionShape | extension.php:79-96 | a link is only ever replaced by a truthy URL: the cached one, or a cleaned one that differs from it when the cache has none |
| Extension.SecondCleanHits | extension.php:76-93 | a link cleaned once is a cache hit with the same URL at any later time within the time to live of its `set` stamp, once the next load keeps every live record |
| Extension.ExpiredAtGet | extension.php:76-101 | a record that `get` finds expired, though it was live when the cache was loaded, is never a hit, and the file is always rewritten: with the cleaned URL stamped at the `set` time, or without the expired record |

## Left out

- Network and PHP library calls are parameters:
  - `parse_url`;
  - `filter_var`;
  - the batch-execute POST, a function from the list of identifiers to the reply's status and body;
  - curl's effective URL;
  - `get_headers`;
  - `file_get_contents`.

  A curl failure is an empty body or a `None`. HTTP headers, timeouts and
  user agents are not modelled.
- The anchor regular expression of `GoogleNewsCleanup/index.php:99` is a
  parameter: its first match on the page.
- The second `fetchDecodedBatchExecute(string $articleId)`
  (`lib/GoogleNewsCleaner.php:189-246`) is not part of this model. The
  class declares `fetchDecodedBatchExecute` twice. PHP rejects a class that
  redeclares a method with a fatal compile-time error, so the class as
  written does not load. The model takes the first definition
  (`lib/GoogleNewsCleaner.php:118-187`), because the call at line 100
  passes an array of identifiers.
- Logging (`Minz_Log`) and the `try`/`catch` blocks are left out. The
  modelled operations raise no exceptions, so the catch paths are
  unreachable in the model.
- File I/O of the cache is the `disk` field, the map last written (`None`
  when the file is missing or does not decode to an array). JSON encoding
  is taken to round-trip. `dirname`/`mkdir` are not modelled.
- `__destruct` is modelled by a call to `FlushIfNeeded` at the end of
  `Extension.CleanEntry`, where the cache object goes out of scope.
- The clock is a parameter. `cleanEntry` reads it three times: on load,
  in `get` and in `set`. These are the `loadTime`, `getTime` and
  `setTime` of `Extension.CleanEntry`. Nothing requires them to be in
  order or close together. How long the cleaner's network calls take
  between `get` and `set` is not modelled, only the readings themselves.
- A record that is not an array, or a stamp that is not an integer, is not
  modelled. Records have an optional URL and an optional integer stamp.
- Cache.Blank: a record with neither a URL nor a stamp stands both for the
  empty array, which `!$item` rejects, and for a non-empty array whose keys
  are null or missing (such as `{"o":null}`), which `!$item` lets through to
  the age test with stamp 0. The model cannot tell them apart. Neither
  reaches `get` on any path through the class: loading drops every record
  without a stamp, and `set` always stamps, as
  `Cache.GoogleNewsCache.Stamped` states in the constructor's, `get`'s and
  `set`'s contracts.
- Extension.CleanEntry: the settings are passed as values, as the code reads
  them with `?? default` from the user configuration. The hook
  registration, `save()`, `handleUninstallAction`, the `clear_cache`
  unlink, `configure.php` and the `feed()->id()` / `_link()` entry accessors
  are not modelled.
- Extension.CleanEntry: the feed test `== '1'` is modelled as string
  equality. PHP's loose comparison also accepts values such as `1` or
  `"01"`.
- Cache.GoogleNewsCache.PurgeExpired: which of several records with equal
  stamps `uasort` evicts first is not stated. The contract says only that
  the evicted records are no newer than the kept ones.
- Cache.KeysByStamp: an insertion sort stands for `uasort`. The order
  among equal stamps may differ from PHP's.
- Cleanup.DecodeFromBase64RoundTrip: stated for links whose text before
  the marker holds no `n` and whose text after the identifier does not
  continue it. The leftmost-match search is otherwise not characterised.
- BatchExecute.EnvelopeInjective: stated only for identifiers without a
  backslash.
- `decodeFromBase64` (`GoogleNewsCleanup/index.php:138-160`) is modelled,
  but nothing in the plugin calls it.
- The regular expressions of `decodeFromBase64` are modelled as leftmost
  matches over the character classes they name, with `\s` read as ASCII
  blanks.
