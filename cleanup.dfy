/**
 * The older `GoogleNewsCleanupPlugin`: the link filter
 * `clean_google_news_url`, the redirect extractor that prefers the last
 * `Location` header and falls back to the first absolute link of the page,
 * the `isValidUrl` prefix test, and `decodeFromBase64`, which reads the
 * identifier as URL-safe Base64 (section 5 of RFC 4648) and picks the first
 * `http(s)://` run out of the decoded bytes. `get_headers`,
 * `file_get_contents` and the anchor regular expression are parameters
 * gathered in `Web`.
 */
module Cleanup {
  import opened Wrappers
  import opened Strings
  import opened Base64

  /** The `Location` entry of `get_headers($url, 1)`: absent, one value, or one per redirect. */
  datatype Location = NoLocation | Single(value: string) | Multiple(values: seq<string>)

  /** The network calls of the redirect extractor and the anchor match on the fetched page. */
  datatype Web = Web(
    headers: string -> Option<Location>,   // get_headers; None for its false
    body: string -> Option<string>,        // file_get_contents; None for its false
    firstHref: string -> Option<string>)   // group 1 of the first `<a ... href="http(s)://...">` match

  const ArticlesMarker: string := "news.google.com/rss/articles/"
  const GoogleHost: string := "news.google.com"
  const Http: string := "http://"
  const Https: string := "https://"

  /** `isValidUrl`: `strpos` finds `http://` or `https://` at position 0, that is, the string begins with one of them. */
  predicate IsValidUrl(s: string): (r: bool)
    ensures r <==> StartsWith(s, Http) || StartsWith(s, Https)
  {
    IndexOfFinds(s, Http);
    IndexOfFinds(s, Https);
    IndexOf(s, Http) == Some(0) || IndexOf(s, Https) == Some(0)
  }

  /** The value `end($location)` takes; `None` for the `false` of an empty array. */
  function LastLocation(loc: Location): Option<string> {
    match loc
    case NoLocation => None
    case Single(v) => Some(v)
    case Multiple(vs) => if |vs| == 0 then None else Some(vs[|vs| - 1])
  }

  /**
   * `extractOriginalUrlFromGoogleNews`; `None` stands for its `false`. Any
   * answer is the valid last `Location` value, or the page's first absolute
   * link when that is not on `news.google.com`.
   */
  function ExtractFromGoogleNews(url: string, web: Web): (r: Option<string>)
    ensures r.Some? ==>
      web.headers(url).Some? &&
      ((r == LastLocation(web.headers(url).value) && IsValidUrl(r.value)) ||
       (web.body(url).Some? && r == web.firstHref(web.body(url).value) && !Contains(r.value, GoogleHost)))
  {
    match web.headers(url)
    case None => None
    case Some(loc) =>
      var location := LastLocation(loc);
      if location.Some? && Truthy(location.value) && IsValidUrl(location.value) then location
      else
        match web.body(url)
        case None => None
        case Some(html) =>
          match web.firstHref(html)
          case None => None
          case Some(href) => if Contains(href, GoogleHost) then None else Some(href)
  }

  /**
   * `clean_google_news_url`: the link is replaced exactly when it mentions
   * the article marker and extraction gives a different URL, and then by
   * that URL.
   */
  function CleanGoogleNewsUrl(url: string, web: Web): (r: string)
    ensures r != url <==>
      Contains(url, ArticlesMarker) && ExtractFromGoogleNews(url, web).Some? && ExtractFromGoogleNews(url, web).value != url
    ensures r != url ==> Some(r) == ExtractFromGoogleNews(url, web)
  {
    if Contains(url, ArticlesMarker) then
      var cleaned := ExtractFromGoogleNews(url, web);
      if cleaned.Some? && cleaned.value != url then cleaned.value else url
    else url
  }

  // ---------------------------------------------------------------------------
  // decodeFromBase64

  /** The class `[A-Za-z0-9_-]` of the identifier pattern. */
  predicate IsTokenChar(c: char) {
    ('A' <= c <= 'Z') || ('a' <= c <= 'z') || ('0' <= c <= '9') || c == '_' || c == '-'
  }

  /** The length of the longest prefix of `s` made of identifier characters. */
  function TokenRun(s: string): (n: nat)
    ensures n <= |s|
    ensures forall i :: 0 <= i < n ==> IsTokenChar(s[i])
    ensures n < |s| ==> !IsTokenChar(s[n])
  {
    if |s| > 0 && IsTokenChar(s[0]) then 1 + TokenRun(s[1..]) else 0
  }

  /** Group 1 of the leftmost match of `news\.google\.com/rss/articles/([A-Za-z0-9_-]+)` in `s`. */
  function ArticleToken(s: string): Option<string>
    decreases |s|
  {
    if |s| < |ArticlesMarker| then None
    else
      var rest := s[|ArticlesMarker|..];
      if StartsWith(s, ArticlesMarker) && TokenRun(rest) > 0 then Some(rest[..TokenRun(rest)])
      else ArticleToken(s[1..])
  }

  /** The `=` characters `str_repeat('=', (4 - strlen % 4) % 4)` appends. */
  function Pad(n: nat): (p: string)
    ensures AllPad(p) && |p| < 4 && (n + |p|) % 4 == 0
  {
    seq((4 - n % 4) % 4, _ => '=')
  }

  /** `strtr($s, '-_', '+/')` on one character. */
  function StandardChar(c: char): char {
    if c == '-' then '+' else if c == '_' then '/' else c
  }

  /** The inverse mapping, from the alphabet of section 4 of RFC 4648 to that of section 5. */
  function UrlSafeChar(c: char): char {
    if c == '+' then '-' else if c == '/' then '_' else c
  }

  /** `strtr($s, '-_', '+/')`. */
  function ToStandard(s: string): (r: string)
    ensures |r| == |s|
  {
    seq(|s|, i requires 0 <= i < |s| => StandardChar(s[i]))
  }

  function ToUrlSafe(s: string): (r: string)
    ensures |r| == |s|
  {
    seq(|s|, i requires 0 <= i < |s| => UrlSafeChar(s[i]))
  }

  /** The characters `[^\x00\s]` lets through: anything but NUL and the ASCII blanks. */
  predicate IsUrlChar(c: char) {
    c != '\0' && c != ' ' && !('\t' <= c <= '\r')
  }

  /** The length of the longest prefix of `s` made of URL characters. */
  function UrlRun(s: string): (n: nat)
    ensures n <= |s|
    ensures forall i :: 0 <= i < n ==> IsUrlChar(s[i])
    ensures n < |s| ==> !IsUrlChar(s[n])
  {
    if |s| > 0 && IsUrlChar(s[0]) then 1 + UrlRun(s[1..]) else 0
  }

  /** How much of `s` the `https?://` part of the pattern matches; the `s` is tried first. */
  function SchemeLength(s: string): nat {
    if StartsWith(s, Https) then |Https| else if StartsWith(s, Http) then |Http| else 0
  }

  /** The leftmost match of `https?://[^\x00\s]+` in `s`. */
  function FirstHttpRun(s: string): Option<string>
    decreases |s|
  {
    if |s| == 0 then None
    else
      var n := SchemeLength(s);
      if n > 0 && UrlRun(s[n..]) > 0 then Some(s[..n + UrlRun(s[n..])])
      else FirstHttpRun(s[1..])
  }

  /**
   * `decodeFromBase64`; `None` stands for its `false`. Any answer passes
   * `isValidUrl` and holds no NUL or blank.
   */
  function DecodeFromBase64(url: string): (r: Option<string>)
    ensures r.Some? ==> IsValidUrl(r.value) && forall i :: 0 <= i < |r.value| ==> IsUrlChar(r.value[i])
  {
    match ArticleToken(url)
    case None => None
    case Some(token) =>
      match DecodeStrict(ToStandard(token + Pad(|token|)))
      case None => None
      case Some(bytes) => FirstHttpRunShape(Latin1(bytes)); FirstHttpRun(Latin1(bytes))
  }

  // ---------------------------------------------------------------------------
  // Properties

  /** A link without `news.google.com/rss/articles/` passes through untouched. */
  lemma CleanOnlyArticleLinks(url: string, web: Web)
    requires !Contains(url, ArticlesMarker)
    ensures CleanGoogleNewsUrl(url, web) == url
  {
  }

  /** A valid last `Location` value, whenever there is one, is the answer: the page is not consulted. */
  lemma LocationFirst(url: string, web: Web)
    ensures (web.headers(url).Some? && LastLocation(web.headers(url).value).Some? &&
             IsValidUrl(LastLocation(web.headers(url).value).value)) ==>
      ExtractFromGoogleNews(url, web) == LastLocation(web.headers(url).value)
  {
  }

  /** With several redirects, the last `Location` is the one taken. */
  lemma LastRedirectWins(url: string, web: Web, values: seq<string>)
    requires web.headers(url) == Some(Multiple(values))
    requires |values| > 0 && IsValidUrl(values[|values| - 1])
    ensures ExtractFromGoogleNews(url, web) == Some(values[|values| - 1])
  {
  }

  /** The padding completes a group of four with at most three `=`. */
  lemma PadCompletes(token: string)
    ensures |token + Pad(|token|)| % 4 == 0 && |token + Pad(|token|)| <= |token| + 3
  {
  }

  /** The alphabet translation changes only `-` and `_`, and on a standard encoding undoes the URL-safe mapping of section 5 of RFC 4648. */
  lemma ToStandardInvertsUrlSafe(s: string)
    requires forall i :: 0 <= i < |s| ==> s[i] != '-' && s[i] != '_'
    ensures ToStandard(ToUrlSafe(s)) == s
    ensures ToStandard(s) == s
  {
  }

  /** A match of the identifier pattern is a non-empty run of identifier characters right after the marker. */
  lemma {:induction false} ArticleTokenShape(s: string)
    ensures ArticleToken(s).Some? ==>
      var t := ArticleToken(s).value;
      |t| > 0 && (forall i :: 0 <= i < |t| ==> IsTokenChar(t[i])) &&
      exists j :: OccursAt(s, ArticlesMarker + t, j)
    decreases |s|
  {
    if |s| >= |ArticlesMarker| {
      var rest := s[|ArticlesMarker|..];
      if StartsWith(s, ArticlesMarker) && TokenRun(rest) > 0 {
        var t := rest[..TokenRun(rest)];
        assert s[..|ArticlesMarker + t|] == ArticlesMarker + t;
        assert OccursAt(s, ArticlesMarker + t, 0);
      } else if ArticleToken(s[1..]).Some? {
        assert ArticleToken(s) == ArticleToken(s[1..]);
        ArticleTokenShape(s[1..]);
        var t := ArticleToken(s[1..]).value;
        var j :| OccursAt(s[1..], ArticlesMarker + t, j);
        OccursShifted(s, ArticlesMarker + t, j + 1);
      }
    }
  }

  /** A decoded result begins with `http://` or `https://` and holds neither NUL nor blanks. */
  lemma {:induction false} FirstHttpRunShape(s: string)
    ensures FirstHttpRun(s).Some? ==>
      var r := FirstHttpRun(s).value;
      IsValidUrl(r) && |r| > SchemeLength(r) && forall i :: 0 <= i < |r| ==> IsUrlChar(r[i])
    decreases |s|
  {
    if |s| > 0 {
      var n := SchemeLength(s);
      if n > 0 && UrlRun(s[n..]) > 0 {
        var r := s[..n + UrlRun(s[n..])];
        assert r[..n] == s[..n];
        assert SchemeLength(r) == n;
        forall i | 0 <= i < |r| ensures IsUrlChar(r[i]) {
          if i >= n {
            assert r[i] == s[n..][i - n];
          } else if n == |Https| {
            assert r[i] == Https[i];
          } else {
            assert r[i] == Http[i];
          }
        }
      } else {
        FirstHttpRunShape(s[1..]);
      }
    }
  }

  /** The identifier `decodeFromBase64` expects for a URL: its encoding in the URL-safe alphabet of section 5 of RFC 4648, unpadded. */
  function UrlSafeToken(b: seq<byte>): string {
    ToUrlSafe(EncodeSymbols(b))
  }

  /** Text free of `n` cannot hold the start of a match, so the search moves past it. */
  lemma {:induction false} ArticleTokenSkips(pre: string, rest: string)
    requires forall i :: 0 <= i < |pre| ==> pre[i] != 'n'
    requires |rest| >= |ArticlesMarker|
    ensures ArticleToken(pre + rest) == ArticleToken(rest)
    decreases |pre|
  {
    if |pre| > 0 {
      var s := pre + rest;
      assert !StartsWith(s, ArticlesMarker) by {
        assert s[0] == pre[0] && ArticlesMarker[0] == 'n';
        assert s[..|ArticlesMarker|][0] == s[0];
      }
      assert s[1..] == pre[1..] + rest;
      assert ArticleToken(s) == ArticleToken(s[1..]);
      ArticleTokenSkips(pre[1..], rest);
    } else {
      assert pre + rest == rest;
    }
  }

  lemma {:induction false} TokenRunBefore(t: string, post: string)
    requires forall i :: 0 <= i < |t| ==> IsTokenChar(t[i])
    requires |post| > 0 ==> !IsTokenChar(post[0])
    ensures TokenRun(t + post) == |t|
    decreases |t|
  {
    if |t| > 0 {
      assert (t + post)[1..] == t[1..] + post;
      TokenRunBefore(t[1..], post);
    } else if |post| > 0 {
      assert (t + post)[0] == post[0];
    }
  }

  /** The URL-safe form of an encoding is made of identifier characters. */
  lemma UrlSafeTokenChars(b: seq<byte>)
    ensures forall i :: 0 <= i < |UrlSafeToken(b)| ==> IsTokenChar(UrlSafeToken(b)[i])
    ensures |b| > 0 ==> |UrlSafeToken(b)| > 0
  {
    var s := EncodeSymbols(b);
    EncodeSymbolsShape(b);
    forall i | 0 <= i < |s| ensures IsTokenChar(ToUrlSafe(s)[i]) {
      assert IsSymbol(s[i]);
    }
  }

  /** The padding put back equals the padding of the standard encoding. */
  lemma PadRestoresPadding(b: seq<byte>)
    ensures Pad(|EncodeSymbols(b)|) == Padding(|b|)
  {
    EncodeSymbolsShape(b);
    PadOfLength(|EncodeSymbols(b)|, |b|);
  }

  lemma PadOfLength(m: nat, n: nat)
    requires m % 4 == (if n % 3 == 0 then 0 else n % 3 + 1)
    ensures Pad(m) == Padding(n)
  {
    var p, q := Pad(m), Padding(n);
    assert |p| == |q| by {
      if n % 3 == 0 {
        assert |p| == 0;
      } else if n % 3 == 1 {
        assert |p| == 2;
      } else {
        assert |p| == 1;
      }
    }
    assert forall i :: 0 <= i < |p| ==> p[i] == q[i];
  }

  /** The identifier of `b`, padded and translated back, is the standard encoding of `b`. */
  lemma StandardOfToken(b: seq<byte>)
    ensures ToStandard(UrlSafeToken(b) + Pad(|UrlSafeToken(b)|)) == Encode(b)
  {
    var s := EncodeSymbols(b);
    var p := Padding(|b|);
    PadRestoresPadding(b);
    EncodeSymbolsShape(b);
    ToStandardInvertsUrlSafe(s);
    var u := ToUrlSafe(s) + p;
    assert forall i :: 0 <= i < |u| ==> ToStandard(u)[i] == (s + p)[i];
  }

  /** A URL already starting with its scheme and free of NUL and blanks is matched whole. */
  lemma FirstHttpRunWhole(u: string)
    requires 0 < SchemeLength(u) < |u|
    requires forall i :: 0 <= i < |u| ==> IsUrlChar(u[i])
    ensures FirstHttpRun(u) == Some(u)
  {
    var n := SchemeLength(u);
    assert UrlRun(u[n..]) == |u| - n by { UrlRunAll(u[n..]); }
    MatchWhole(u, n);
  }

  lemma MatchWhole(u: string, n: nat)
    requires n == SchemeLength(u) > 0 && UrlRun(u[n..]) == |u| - n > 0
    ensures FirstHttpRun(u) == Some(u)
  {
    assert u[..|u|] == u;
  }

  lemma SchemeOfValid(u: string)
    requires IsValidUrl(u)
    ensures SchemeLength(u) > 0
  {
  }

  lemma {:induction false} UrlRunAll(s: string)
    requires forall i :: 0 <= i < |s| ==> IsUrlChar(s[i])
    ensures UrlRun(s) == |s|
    decreases |s|
  {
    if |s| > 0 {
      UrlRunAll(s[1..]);
    }
  }

  /**
   * The round trip of `decodeFromBase64`: in a link of the shape
   * `<pre>news.google.com/rss/articles/<id><post>`, where `<pre>` holds no
   * `n` (such as `https://`) and `<post>` does not continue the identifier
   * (such as `?oc=5`), the identifier made from a URL decodes back to that URL.
   */
  lemma DecodeFromBase64RoundTrip(b: seq<byte>, pre: string, post: string)
    requires forall i :: 0 <= i < |pre| ==> pre[i] != 'n'
    requires |post| > 0 ==> !IsTokenChar(post[0])
    requires var u := Latin1(b); IsValidUrl(u) && |u| > SchemeLength(u)
    requires forall i :: 0 <= i < |b| ==> IsUrlChar(b[i] as char)
    ensures DecodeFromBase64(pre + ArticlesMarker + UrlSafeToken(b) + post) == Some(Latin1(b))
  {
    var token := UrlSafeToken(b);
    assert ArticleToken(pre + ArticlesMarker + token + post) == Some(token) by {
      TokenOfLink(b, pre, post);
    }
    assert DecodeStrict(ToStandard(token + Pad(|token|))) == Some(b) by {
      StandardOfToken(b);
      DecodeEncode(b);
    }
    assert FirstHttpRun(Latin1(b)) == Some(Latin1(b)) by {
      SchemeOfValid(Latin1(b));
      FirstHttpRunWhole(Latin1(b));
    }
  }

  /** The identifier pattern captures exactly the identifier of such a link. */
  lemma TokenOfLink(b: seq<byte>, pre: string, post: string)
    requires |b| > 0
    requires forall i :: 0 <= i < |pre| ==> pre[i] != 'n'
    requires |post| > 0 ==> !IsTokenChar(post[0])
    ensures ArticleToken(pre + ArticlesMarker + UrlSafeToken(b) + post) == Some(UrlSafeToken(b))
  {
    var t := UrlSafeToken(b);
    var rest := ArticlesMarker + t + post;
    Regroup(pre, ArticlesMarker, t, post);
    assert ArticleToken(pre + rest) == ArticleToken(rest) by {
      ArticleTokenSkips(pre, rest);
    }
    assert ArticleToken(rest) == Some(t) by {
      UrlSafeTokenChars(b);
      MarkerThenToken(t, post);
    }
  }

  lemma MarkerThenToken(t: string, post: string)
    requires |t| > 0 && forall i :: 0 <= i < |t| ==> IsTokenChar(t[i])
    requires |post| > 0 ==> !IsTokenChar(post[0])
    ensures ArticleToken(ArticlesMarker + t + post) == Some(t)
  {
    var rest := ArticlesMarker + t + post;
    assert rest[|ArticlesMarker|..] == t + post;
    TokenRunBefore(t, post);
    assert (t + post)[..|t|] == t;
    assert StartsWith(rest, ArticlesMarker);
  }
}
