/**
 * `GoogleNewsCleaner::extractOriginalUrl` and its helpers: the host and path
 * checks, the strict Base64 decode of the article identifier, the optional
 * 3-byte prefix and suffix, the length byte and payload, and the branch on
 * the `AU_yqL` sentinel that sends newer identifiers to the batch-execute
 * call and then to redirect following. PHP's `parse_url`, `filter_var` and
 * the network calls are parameters gathered in `Env`.
 */
module Cleaner {
  import opened Wrappers
  import opened Strings
  import opened Base64
  import opened BatchExecute

  /** What `parse_url` reports of the two components the code reads; `None` stands for a missing component. */
  datatype UrlParts = UrlParts(host: Option<string>, path: Option<string>)

  /** The PHP library functions and network calls the cleaner relies on. */
  datatype Env = Env(
    parseUrl: string -> Option<UrlParts>,     // parse_url; None for its false
    isValidUrl: string -> bool,               // filter_var(..., FILTER_VALIDATE_URL) !== false
    post: seq<string> -> HttpReply,           // the batch-execute POST for these identifiers (f.req is RequestPayload(ids))
    effectiveUrl: string -> Option<string>)   // curl with redirects followed; None when curl is absent or throws

  /** The outcome of the self-contained decode of an identifier. */
  datatype Candidate = Resolved(url: string) | NeedsRemote(id: string) | Unresolvable

  const NewsHost: string := "news.google.com"
  const Prefix: seq<byte> := [0x08, 0x13, 0x22]
  const Suffix: seq<byte> := [0xD2, 0x01, 0x00]
  const Sentinel: string := "AU_yqL"

  /** The identifier: the last segment of the slash-trimmed path, provided the one before it is `articles`. */
  function ArticleSegment(path: string): Option<string> {
    var parts := Split(Trim(path, '/'), '/');
    if |parts| < 2 || parts[|parts| - 2] != Articles then None
    else Some(parts[|parts| - 1])
  }

  /** The identifier of a link the cleaner accepts: host exactly `news.google.com`, path of the `articles/<id>` shape. */
  function ArticleId(sourceUrl: string, env: Env): Option<string> {
    match env.parseUrl(sourceUrl)
    case None => None
    case Some(parts) =>
      if parts.host.None? || parts.path.None? then None
      else if parts.host.value != NewsHost then None
      else ArticleSegment(parts.path.value)
  }

  /** The prefix is removed when the bytes start with it, then the suffix when what is left ends with it. */
  function StripMarkers(raw: seq<byte>): (r: seq<byte>)
    ensures var lo := if StartsWith(raw, Prefix) then 3 else 0;
      && lo + |r| <= |raw| && r == raw[lo..lo + |r|]
      && (|r| == |raw| - lo || |r| == |raw| - lo - 3)
      && (|r| == |raw| - lo - 3 <==> EndsWith(raw[lo..], Suffix))
  {
    var b := if StartsWith(raw, Prefix) then raw[3..] else raw;
    if EndsWith(b, Suffix) then b[..|b| - 3] else b
  }

  /** Where the payload starts: after one length byte, or after two when the first has its high bit set. */
  function PayloadOffset(len: byte): nat {
    if len >= 0x80 then 2 else 1
  }

  /** `array_slice($bytes, $offset, $len)`: at most `len` bytes from the offset, cut at the end of the buffer. */
  function Payload(b: seq<byte>): (r: seq<byte>)
    requires |b| > 0
    ensures |r| <= b[0]
    ensures var off := PayloadOffset(b[0]);
      |r| == (if off >= |b| then 0 else if off + b[0] <= |b| then b[0] else |b| - off)
    ensures forall i :: 0 <= i < |r| ==> r[i] == b[PayloadOffset(b[0]) + i]
  {
    var off := PayloadOffset(b[0]);
    if off >= |b| then []
    else if off + b[0] <= |b| then b[off..off + b[0]]
    else b[off..]
  }

  /** The payload as a string, or `None` when the identifier does not decode or nothing is left after stripping. */
  function DecodedPayload(segment: string): Option<string> {
    match DecodeStrict(segment)
    case None => None
    case Some(raw) =>
      var b := StripMarkers(raw);
      if |b| == 0 then None else Some(Latin1(Payload(b)))
  }

  /** The decision on the payload: the sentinel means the newer format, otherwise a valid URL is the answer. */
  function Classify(segment: string, payload: string, isValidUrl: string -> bool): Candidate {
    if StartsWith(payload, Sentinel) then NeedsRemote(segment)
    else if isValidUrl(payload) then Resolved(payload)
    else Unresolvable
  }

  /** The self-contained part of the decode. */
  function LegacyCandidate(segment: string, isValidUrl: string -> bool): Candidate {
    match DecodedPayload(segment)
    case None => Unresolvable
    case Some(payload) => Classify(segment, payload, isValidUrl)
  }

  /** `decodeNewFormat`: the first URL of a successful batch call. */
  function NewFormatResult(id: string, post: seq<string> -> HttpReply): Option<string> {
    match FetchResult([id], post)
    case BatchOk(urls) => if |urls| > 0 then Some(urls[0]) else None
    case BatchFailed(_) => None
  }

  /** `followRedirect`: the effective URL, when it is truthy and differs from the link. */
  function FollowRedirect(url: string, effective: Option<string>): (r: Option<string>)
    ensures r.Some? ==> r == effective && Truthy(r.value) && r.value != url
    ensures TruthyOpt(effective) && effective.value != url ==> r == effective
  {
    if TruthyOpt(effective) && effective.value != url then effective else None
  }

  /** `extractOriginalUrl` as a function of its collaborators. */
  function ExtractResult(sourceUrl: string, env: Env): Option<string> {
    match ArticleId(sourceUrl, env)
    case None => None
    case Some(segment) =>
      match LegacyCandidate(segment, env.isValidUrl)
      case Unresolvable => None
      case Resolved(url) => Some(url)
      case NeedsRemote(id) =>
        var decoded := NewFormatResult(id, env.post);
        if TruthyOpt(decoded) then decoded
        else FollowRedirect(sourceUrl, env.effectiveUrl(sourceUrl))
  }

  /** The loop that appends `chr($byte)` for each payload byte. */
  method BytesToString(bytes: seq<byte>) returns (s: string)
    ensures |s| == |bytes|
    ensures forall i :: 0 <= i < |bytes| ==> s[i] as int == bytes[i]
  {
    s := "";
    for i := 0 to |bytes|
      invariant |s| == i
      invariant forall j :: 0 <= j < i ==> s[j] as int == bytes[j]
    {
      s := s + [bytes[i] as char];
    }
  }

  method DecodeNewFormat(articleId: string, env: Env) returns (r: Option<string>)
    ensures r == NewFormatResult(articleId, env.post)
  {
    var result, payload := FetchDecodedBatchExecute([articleId], env.post);
    if result.BatchOk? && |result.urls| > 0 {
      return Some(result.urls[0]);
    }
    return None;
  }

  method ExtractOriginalUrl(sourceUrl: string, env: Env) returns (r: Option<string>)
    ensures r == ExtractResult(sourceUrl, env)
  {
    var parsed := env.parseUrl(sourceUrl);
    if parsed.None? || parsed.value.host.None? || parsed.value.path.None? {
      return None;
    }
    if parsed.value.host.value != NewsHost {
      return None;
    }
    var pathParts := Split(Trim(parsed.value.path.value, '/'), '/');
    if |pathParts| < 2 || pathParts[|pathParts| - 2] != Articles {
      return None;
    }
    var base64encoded := pathParts[|pathParts| - 1];
    assert ArticleId(sourceUrl, env) == Some(base64encoded);
    var decoded := DecodeStrict(base64encoded);
    if decoded.None? {
      return None;
    }
    var bytes := StripMarkers(decoded.value);
    if |bytes| == 0 {
      return None;
    }
    var extractedUrl := BytesToString(Payload(bytes));
    assert extractedUrl == Latin1(Payload(bytes));
    assert DecodedPayload(base64encoded) == Some(extractedUrl);
    if StartsWith(extractedUrl, Sentinel) {
      var decodedUrl := DecodeNewFormat(base64encoded, env);
      if TruthyOpt(decodedUrl) {
        return decodedUrl;
      }
      return FollowRedirect(sourceUrl, env.effectiveUrl(sourceUrl));
    }
    if env.isValidUrl(extractedUrl) {
      return Some(extractedUrl);
    }
    return None;
  }

  // ---------------------------------------------------------------------------
  // Properties

  /** Anything but a parsed link with both components and the host `news.google.com` yields nothing. */
  lemma OnlyNewsHost(sourceUrl: string, env: Env)
    requires var p := env.parseUrl(sourceUrl);
      p.None? || p.value.host.None? || p.value.path.None? || p.value.host.value != NewsHost
    ensures ExtractResult(sourceUrl, env) == None
  {
  }

  /** A path whose second-to-last segment is not `articles` yields nothing. */
  lemma OnlyArticlePaths(sourceUrl: string, env: Env, parts: UrlParts)
    requires env.parseUrl(sourceUrl) == Some(parts) && parts.path.Some?
    requires var segs := Split(Trim(parts.path.value, '/'), '/');
      |segs| < 2 || segs[|segs| - 2] != Articles
    ensures ExtractResult(sourceUrl, env) == None
  {
  }

  const Articles: string := "articles"

  /** The identifier of `<anything>/articles/<id>` is `id`, whatever comes before. */
  lemma ArticleSegmentOf(pre: string, id: string)
    requires |id| > 0 && '/' !in id
    ensures ArticleSegment(pre + "/" + Articles + "/" + id) == Some(id)
  {
    assert '/' !in Articles;
    LastTwoOfTrimmed(pre, Articles, id, '/');
  }

  /** Bytes framed by both markers come out as they went in. */
  lemma StripMarkersFramed(x: seq<byte>)
    ensures StripMarkers(Prefix + x + Suffix) == x
  {
    var raw := Prefix + x + Suffix;
    assert raw[..3] == Prefix;
    assert raw[3..] == x + Suffix;
    var b := x + Suffix;
    assert b[|b| - 3..] == Suffix;
    assert b[..|b| - 3] == x;
  }

  /** Bytes with neither marker are left alone. */
  lemma StripMarkersUnframed(raw: seq<byte>)
    requires !StartsWith(raw, Prefix) && !EndsWith(raw, Suffix)
    ensures StripMarkers(raw) == raw
  {
  }

  /** The length prefix a protobuf writer puts before `n` bytes (a varint, one or two bytes for `n` below 16384). */
  function VarintPrefix(n: nat): seq<byte>
    requires n < 16384
  {
    if n < 0x80 then [n] else [0x80 + n % 0x80, n / 0x80]
  }

  /**
   * The single-byte length rule reads the varint correctly for payloads
   * shorter than 256 bytes; from 256 on it keeps only the first
   * `128 + n % 128` bytes.
   */
  lemma {:induction false} PayloadAfterVarint(u: seq<byte>, rest: seq<byte>)
    requires |u| < 16384
    ensures var n := |u|;
      Payload(VarintPrefix(n) + u + rest) == if n < 256 then u else u[..0x80 + n % 0x80]
  {
    var n := |u|;
    var b := VarintPrefix(n) + u + rest;
    var r := Payload(b);
    var off := |VarintPrefix(n)|;
    assert PayloadOffset(b[0]) == off;
    var want := if n < 256 then u else u[..0x80 + n % 0x80];
    assert |r| == |want|;
    forall i | 0 <= i < |r| ensures r[i] == want[i] {
      assert r[i] == b[off + i];
    }
  }

  /** A payload starting with the sentinel always takes the remote route. */
  lemma SentinelNeedsRemote(segment: string, payload: string, isValidUrl: string -> bool)
    requires StartsWith(payload, Sentinel)
    ensures Classify(segment, payload, isValidUrl) == NeedsRemote(segment)
  {
  }

  /**
   * For an identifier in the newer format the answer is the first
   * batch-execute URL when that is truthy, and otherwise the
   * redirect-following result.
   */
  lemma SentinelRoute(sourceUrl: string, env: Env, segment: string, payload: string)
    requires ArticleId(sourceUrl, env) == Some(segment)
    requires DecodedPayload(segment) == Some(payload) && StartsWith(payload, Sentinel)
    ensures var decoded := NewFormatResult(segment, env.post);
      ExtractResult(sourceUrl, env) ==
        if TruthyOpt(decoded) then decoded else FollowRedirect(sourceUrl, env.effectiveUrl(sourceUrl))
  {
  }

  /** A legacy payload is the answer exactly when it is a valid URL; otherwise there is none. */
  lemma LegacyRoute(sourceUrl: string, env: Env, segment: string, payload: string)
    requires ArticleId(sourceUrl, env) == Some(segment)
    requires DecodedPayload(segment) == Some(payload) && !StartsWith(payload, Sentinel)
    ensures ExtractResult(sourceUrl, env) == Some(payload) <==> env.isValidUrl(payload)
    ensures !env.isValidUrl(payload) ==> ExtractResult(sourceUrl, env) == None
  {
  }

  /** An identifier that decodes to nothing once the markers are removed yields no answer. */
  lemma EmptyAfterStripping(sourceUrl: string, env: Env, segment: string, raw: seq<byte>)
    requires ArticleId(sourceUrl, env) == Some(segment)
    requires DecodeStrict(segment) == Some(raw) && StripMarkers(raw) == []
    ensures ExtractResult(sourceUrl, env) == None
  {
  }

  /** The strict decoder refuses the URL-safe alphabet, so an identifier containing `-` or `_` yields no answer. */
  lemma UrlSafeIdentifierRejected(sourceUrl: string, env: Env, segment: string)
    requires ArticleId(sourceUrl, env) == Some(segment)
    requires '-' in segment || '_' in segment
    ensures ExtractResult(sourceUrl, env) == None
  {
    assert !IsSymbol('-') && !IsBlank('-') && !IsSymbol('_') && !IsBlank('_');
  }

  /** The legacy identifier of a URL shorter than 256 bytes: prefix, varint length, URL, suffix, Base64. */
  function LegacyIdentifier(url: seq<byte>): string
    requires |url| < 256
  {
    Encode(Prefix + VarintPrefix(|url|) + url + Suffix)
  }

  /** Decoding a legacy identifier gives back the URL it was made from. */
  lemma LegacyDecodeRoundTrip(url: seq<byte>)
    requires |url| < 256
    ensures DecodedPayload(LegacyIdentifier(url)) == Some(Latin1(url))
  {
    var x := VarintPrefix(|url|) + url;
    assert Prefix + VarintPrefix(|url|) + url + Suffix == Prefix + x + Suffix;
    DecodeEncode(Prefix + x + Suffix);
    StripMarkersFramed(x);
    PayloadAfterVarint(url, []);
    assert x == VarintPrefix(|url|) + url + [];
  }

  /**
   * End to end: a link `https://news.google.com/<dir>/articles/<id>` whose
   * identifier is the legacy encoding of a valid URL (not starting with the
   * sentinel, its Base64 free of `/`) resolves to exactly that URL.
   */
  lemma LegacyLinkResolves(sourceUrl: string, env: Env, dir: string, url: seq<byte>)
    requires |url| < 256
    requires '/' !in LegacyIdentifier(url)
    requires env.parseUrl(sourceUrl) == Some(UrlParts(Some(NewsHost), Some(dir + "/" + Articles + "/" + LegacyIdentifier(url))))
    requires !StartsWith(Latin1(url), Sentinel) && env.isValidUrl(Latin1(url))
    ensures ExtractResult(sourceUrl, env) == Some(Latin1(url))
  {
    var id := LegacyIdentifier(url);
    assert |id| > 0 by { EncodedNonEmpty(Prefix + VarintPrefix(|url|) + url + Suffix); }
    ArticleSegmentOf(dir, id);
    LegacyDecodeRoundTrip(url);
  }

  lemma EncodedNonEmpty(b: seq<byte>)
    requires |b| > 0
    ensures |Encode(b)| > 0
  {
  }

  /**
   * A batch reply whose body carries a non-empty list of URLs, each between
   * a header and a footer and with any header-free text around the records,
   * makes the newer format resolve to the first URL.
   */
  lemma NewFormatFromReply(id: string, post: seq<string> -> HttpReply, urls: seq<string>, gaps: seq<string>)
    requires |urls| > 0 && Separable(urls, gaps)
    requires post([id]) == HttpReply(200, Response(urls, gaps))
    ensures NewFormatResult(id, post) == Some(urls[0])
  {
    var reply := post([id]);
    assert ReplyOutcome(reply) == BatchOk(urls) by { RepliedResponse(urls, gaps); }
    NewFormatOfBatch(id, post, urls);
  }

  lemma NewFormatOfBatch(id: string, post: seq<string> -> HttpReply, urls: seq<string>)
    requires |urls| > 0 && ReplyOutcome(post([id])) == BatchOk(urls)
    ensures NewFormatResult(id, post) == Some(urls[0])
  {
  }

  /** A batch call answered with any status but 200 gives nothing. */
  lemma NewFormatHttpFailure(id: string, post: seq<string> -> HttpReply)
    requires post([id]).code != 200
    ensures NewFormatResult(id, post) == None
  {
  }
}
