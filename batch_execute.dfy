/**
 * The batch-execute call of `GoogleNewsCleaner` (the first of its two
 * `fetchDecodedBatchExecute` methods): the request envelope built from the
 * article identifiers, and the scan of the response that collects every
 * text lying between a result header and the next footer. The POST itself
 * is a parameter: a function from the article identifiers, which fix the
 * request payload, to the reply.
 */
module BatchExecute {
  import opened Wrappers
  import opened Strings

  /**
   * The request envelope up to the article identifier, as the PHP format
   * string spells it after unescaping, in the three pieces the source
   * concatenates.
   */
  const EnvelopeHead: string := EnvelopeRequest + EnvelopeClient + EnvelopeVersion
  const EnvelopeRequest: string := @"[""Fbv4je"",""[\""garturlreq\"",[[\""en-US\"",\""US\"",[\""FINANCE_TOP_INDICES\"",\""WEB_TEST_1_0_0\""],"
  const EnvelopeClient: string := @"null,null,1,1,\""US:en\"",null,180,null,null,null,null,null,0,null,null,[1608992183,723341000]],"
  const EnvelopeVersion: string := @"\""en-US\"",\""US\"",1,[2,3,4,8],1,0,\""655000234\"",0,0,null,0],\"""
  /** Between the identifier and the envelope's 1-based index. */
  const EnvelopeMid: string := @"\""]"",null,"""
  /** After the index. */
  const EnvelopeTail: string := @"""]"

  /** What precedes each resolved URL in the response. */
  const Header: string := @"[\""garturlres\"",\"""
  /** What follows each resolved URL in the response. */
  const Footer: string := @"\"","

  /** The `sprintf` of one envelope: identifier `id` at 1-based position `index`. */
  function Envelope(id: string, index: nat): string {
    EnvelopeHead + id + EnvelopeMid + Decimal(index) + EnvelopeTail
  }

  /** The envelopes of all identifiers, numbered from 1 in order. */
  function Envelopes(ids: seq<string>): (es: seq<string>)
    ensures |es| == |ids|
  {
    seq(|ids|, i requires 0 <= i < |ids| => Envelope(ids[i], i + 1))
  }

  /** The `f.req` value: the envelopes joined by commas inside `[[` and `]]`. */
  function RequestPayload(ids: seq<string>): string {
    "[[" + Join(",", Envelopes(ids)) + "]]"
  }

  /** The `foreach` that appends one envelope per identifier. */
  method BuildEnvelopes(ids: seq<string>) returns (envelopes: seq<string>)
    ensures |envelopes| == |ids|
    ensures forall i :: 0 <= i < |ids| ==> envelopes[i] == Envelope(ids[i], i + 1)
  {
    envelopes := [];
    for i := 0 to |ids|
      invariant |envelopes| == i
      invariant forall j :: 0 <= j < i ==> envelopes[j] == Envelope(ids[j], j + 1)
    {
      var index := i + 1;
      envelopes := envelopes + [Envelope(ids[i], index)];
    }
  }

  /**
   * Identifiers without a backslash (Base64 text never has one) can be read
   * back from their envelope: two envelopes are equal only for the same
   * identifier at the same position.
   */
  lemma EnvelopeInjective(a: string, i: nat, b: string, j: nat)
    requires '\\' !in a && '\\' !in b
    requires Envelope(a, i) == Envelope(b, j)
    ensures a == b && i == j
  {
    var x, y := EnvelopeMid + Decimal(i) + EnvelopeTail, EnvelopeMid + Decimal(j) + EnvelopeTail;
    Regroup(EnvelopeHead + a, EnvelopeMid, Decimal(i), EnvelopeTail);
    Regroup(EnvelopeHead + b, EnvelopeMid, Decimal(j), EnvelopeTail);
    assert x[0] == '\\' && y[0] == '\\';
    DelimitedEqual(EnvelopeHead, a, b, x, y, '\\');
    Regroup(EnvelopeMid, Decimal(i), EnvelopeTail, []);
    Regroup(EnvelopeMid, Decimal(j), EnvelopeTail, []);
    MiddleEqual(EnvelopeMid, Decimal(i), Decimal(j), EnvelopeTail);
    DecimalInjective(i, j);
  }

  /** The call made for one article (`decodeNewFormat` passes a single identifier) sends one envelope numbered 1. */
  lemma SingleIdPayload(id: string)
    ensures RequestPayload([id]) == "[[" + Envelope(id, 1) + "]]"
  {
    assert Envelopes([id]) == [Envelope(id, 1)];
  }

  /** The outcome of the scan loop: the URLs found, or the footer-missing failure. */
  datatype ScanResult = Scanned(urls: seq<string>) | FooterMissing

  /** The scan loop as a function: each URL is what lies between a header and the first footer after it. */
  function Scan(text: string): ScanResult
    decreases |text|
  {
    match IndexOf(text, Header)
    case None => Scanned([])
    case Some(h) =>
      var start := text[h + |Header|..];
      match IndexOf(start, Footer)
      case None => FooterMissing
      case Some(f) => Prepend(start[..f], Scan(start[f + |Footer|..]))
  }

  function Prepend(url: string, r: ScanResult): ScanResult {
    match r
    case Scanned(us) => Scanned([url] + us)
    case FooterMissing => FooterMissing
  }

  datatype BatchError = HttpStatus(code: int) | FooterNotFound | NoUrlsFound

  /** The array the PHP method returns: `status` true with `urls`, or false with an `error`. */
  datatype BatchResult = BatchOk(urls: seq<string>) | BatchFailed(error: BatchError)

  /** The verdict on a response body with status 200. */
  function ScanOutcome(text: string): BatchResult {
    match Scan(text)
    case FooterMissing => BatchFailed(FooterNotFound)
    case Scanned(us) => if |us| == 0 then BatchFailed(NoUrlsFound) else BatchOk(us)
  }

  /** The reply of the POST: status code and body (the empty body when the transfer failed). */
  datatype HttpReply = HttpReply(code: int, body: string)

  /** The whole method as a function of the POST's behaviour. */
  function FetchResult(ids: seq<string>, post: seq<string> -> HttpReply): BatchResult {
    ReplyOutcome(post(ids))
  }

  /** The verdict on the reply: its status when that is not 200, otherwise the scan of its body. */
  function ReplyOutcome(reply: HttpReply): BatchResult {
    if reply.code != 200 then BatchFailed(HttpStatus(reply.code)) else ScanOutcome(reply.body)
  }

  /** The scan's result once `urls` have already been collected. */
  function After(urls: seq<string>, r: ScanResult): ScanResult {
    match r
    case Scanned(us) => Scanned(urls + us)
    case FooterMissing => FooterMissing
  }

  lemma AfterPrepend(urls: seq<string>, url: string, r: ScanResult)
    ensures After(urls, Prepend(url, r)) == After(urls + [url], r)
  {
    if r.Scanned? {
      assert urls + ([url] + r.urls) == urls + [url] + r.urls;
    }
  }

  /** The `while` loop that cuts the response at each header and footer. */
  method ScanResponse(response: string) returns (r: BatchResult)
    ensures r == ScanOutcome(response)
  {
    var urls: seq<string> := [];
    var text := response;
    assert urls + [] == urls;
    while Contains(text, Header)
      invariant Scan(response) == After(urls, Scan(text))
      decreases |text|
    {
      var h := IndexOf(text, Header).value;
      var start := text[h + |Header|..];
      if !Contains(start, Footer) {
        assert Scan(text) == FooterMissing;
        return BatchFailed(FooterNotFound);
      }
      var f := IndexOf(start, Footer).value;
      var url := start[..f];
      var rest := start[f + |Footer|..];
      ScanStep(text, h, f);
      AfterPrepend(urls, url, Scan(rest));
      urls := urls + [url];
      text := rest;
    }
    assert urls + [] == urls;
    if |urls| == 0 {
      return BatchFailed(NoUrlsFound);
    }
    return BatchOk(urls);
  }

  /** `fetchDecodedBatchExecute`: build the payload, POST it, scan a 200 reply. */
  method FetchDecodedBatchExecute(ids: seq<string>, post: seq<string> -> HttpReply) returns (r: BatchResult, payload: string)
    ensures payload == RequestPayload(ids)
    ensures r == FetchResult(ids, post)
  {
    var envelopes := BuildEnvelopes(ids);
    assert envelopes == Envelopes(ids);
    payload := "[[" + Join(",", envelopes) + "]]";
    var reply := post(ids);
    if reply.code != 200 {
      r := BatchFailed(HttpStatus(reply.code));
    } else {
      r := ScanResponse(reply.body);
    }
  }

  /**
   * A response that carries each URL between a header and a footer, with
   * arbitrary text around the records: `gaps[k]` comes before record `k`,
   * and the last gap after the last record.
   */
  function Response(urls: seq<string>, gaps: seq<string>): string
    requires |gaps| == |urls| + 1
  {
    if |urls| == 0 then gaps[0] else gaps[0] + Header + urls[0] + Footer + Response(urls[1..], gaps[1..])
  }

  /** The records of a response can be told apart: no gap holds a header and no URL holds a footer. */
  predicate Separable(urls: seq<string>, gaps: seq<string>) {
    && |gaps| == |urls| + 1
    && (forall k :: 0 <= k < |gaps| ==> !Contains(gaps[k], Header))
    && (forall k :: 0 <= k < |urls| ==> !Contains(urls[k], Footer))
  }

  /** One turn of the scan: the text up to the first footer after the first header, then the scan of what follows. */
  lemma ScanStep(text: string, h: nat, f: nat)
    requires IndexOf(text, Header) == Some(h)
    requires IndexOf(text[h + |Header|..], Footer) == Some(f)
    ensures var start := text[h + |Header|..];
      Scan(text) == Prepend(start[..f], Scan(start[f + |Footer|..]))
  {
    var start := text[h + |Header|..];
    var url, rest := start[..f], start[f + |Footer|..];
    assert Scan(text) == Prepend(url, Scan(rest));
  }

  /** No URL the scan collects contains the footer. */
  lemma {:induction false} ScanFooterFree(text: string)
    ensures Scan(text).Scanned? ==> forall k :: 0 <= k < |Scan(text).urls| ==> !Contains(Scan(text).urls[k], Footer)
    decreases |text|
  {
    match IndexOf(text, Header)
    case None =>
    case Some(h) =>
      var start := text[h + |Header|..];
      match IndexOf(start, Footer)
      case None =>
      case Some(f) =>
        var url, rest := start[..f], start[f + |Footer|..];
        ScanStep(text, h, f);
        ScanFooterFree(rest);
        BeforeFirstFree(start, Footer, f);
        PrependFooterFree(url, Scan(rest));
  }

  /** Putting a footer-free URL in front of footer-free URLs keeps them footer-free. */
  lemma PrependFooterFree(url: string, r: ScanResult)
    requires !Contains(url, Footer)
    requires r.Scanned? ==> forall k :: 0 <= k < |r.urls| ==> !Contains(r.urls[k], Footer)
    ensures Prepend(url, r).Scanned? ==> forall k :: 0 <= k < |Prepend(url, r).urls| ==> !Contains(Prepend(url, r).urls[k], Footer)
  {
    if r.Scanned? {
      forall k | 0 <= k < |Prepend(url, r).urls| ensures !Contains(Prepend(url, r).urls[k], Footer) {
        if k > 0 {
          assert Prepend(url, r).urls[k] == r.urls[k - 1];
        }
      }
    }
  }

  /** The footer right after a footer-free text is the first footer. */
  lemma FirstFooter(u: string, rest: string)
    requires !Contains(u, Footer)
    ensures IndexOf(u + Footer + rest, Footer) == Some(|u|)
  {
    var s := u + Footer + rest;
    assert OccursAt(s, Footer, |u|) by { assert s[|u|..|u| + |Footer|] == Footer; }
    forall j | 0 <= j < |u| ensures !OccursAt(s, Footer, j) {
      if j + |Footer| <= |u| {
        assert s[j..j + |Footer|] == u[j..j + |Footer|];
        NotContainsAt(u, Footer, j);
      } else {
        assert s[j..j + |Footer|][|u| - j] == '\\' != Footer[|u| - j];
      }
    }
    IndexOfAt(s, Footer, |u|);
  }

  /** The header right after a header-free text is the first header. */
  lemma FirstHeader(pre: string, rest: string)
    requires !Contains(pre, Header)
    ensures IndexOf(pre + Header + rest, Header) == Some(|pre|)
  {
    var text := pre + Header + rest;
    var h := |pre|;
    assert OccursAt(text, Header, h) by { assert text[h..h + |Header|] == Header; }
    assert forall k :: 0 < k < |Header| ==> Header[k] != '[';
    forall j | 0 <= j < h ensures !OccursAt(text, Header, j) {
      if j + |Header| <= |pre| {
        assert text[j..j + |Header|] == pre[j..j + |Header|];
        NotContainsAt(pre, Header, j);
      } else {
        assert text[h] == Header[0] == '[';
        assert text[j..j + |Header|][h - j] == text[h];
        assert Header[h - j] != '[';
      }
    }
    IndexOfAt(text, Header, h);
  }

  /** One record after header-free text: the scan takes its URL and goes on after its footer. */
  lemma ScanRecord(gap: string, url: string, rest: string)
    requires !Contains(gap, Header) && !Contains(url, Footer)
    ensures Scan(gap + Header + url + Footer + rest) == Prepend(url, Scan(rest))
  {
    var text := gap + Header + url + Footer + rest;
    assert text == gap + Header + (url + Footer + rest);
    FirstHeader(gap, url + Footer + rest);
    var start := text[|gap| + |Header|..];
    assert start == url + Footer + rest;
    FirstFooter(url, rest);
    assert start[..|url|] == url;
    assert start[|url| + |Footer|..] == rest;
  }

  /** The records after the first one can be told apart too. */
  lemma SeparableTail(urls: seq<string>, gaps: seq<string>)
    requires |urls| > 0 && Separable(urls, gaps)
    ensures Separable(urls[1..], gaps[1..]) && gaps[1..][|urls| - 1] == gaps[|urls|]
  {
    forall k | 0 <= k < |gaps| - 1 ensures !Contains(gaps[1..][k], Header) {
      assert gaps[1..][k] == gaps[k + 1];
    }
    forall k | 0 <= k < |urls| - 1 ensures !Contains(urls[1..][k], Footer) {
      assert urls[1..][k] == urls[k + 1];
    }
  }

  /** A response with a first record, followed by `tail`, split after that record. */
  lemma ResponseCons(urls: seq<string>, gaps: seq<string>, tail: string)
    requires |urls| > 0 && |gaps| == |urls| + 1
    ensures Response(urls, gaps) + tail == gaps[0] + Header + urls[0] + Footer + (Response(urls[1..], gaps[1..]) + tail)
  {
    var r := Response(urls[1..], gaps[1..]);
    assert Response(urls, gaps) == gaps[0] + Header + urls[0] + Footer + r;
    RegroupLast(gaps[0] + Header + urls[0] + Footer, r, tail);
  }

  lemma RegroupLast<T>(a: seq<T>, b: seq<T>, c: seq<T>)
    ensures (a + b) + c == a + (b + c)
  {
  }

  /** Collecting nothing first leaves a scan result as it is. */
  lemma AfterNothing(r: ScanResult)
    ensures After([], r) == r
  {
    if r.Scanned? {
      assert [] + r.urls == r.urls;
    }
  }

  /** Collecting the first URL, then the others, is collecting them all. */
  lemma AfterCons(urls: seq<string>, r: ScanResult)
    requires |urls| > 0
    ensures Prepend(urls[0], After(urls[1..], r)) == After(urls, r)
  {
    if r.Scanned? {
      assert [urls[0]] + (urls[1..] + r.urls) == urls + r.urls;
    }
  }

  /** Scanning a response followed by any `tail` collects its URLs, then goes on in the last gap and the tail. */
  lemma {:induction false} ScanResponseThen(urls: seq<string>, gaps: seq<string>, tail: string)
    requires Separable(urls, gaps)
    ensures Scan(Response(urls, gaps) + tail) == After(urls, Scan(gaps[|urls|] + tail))
  {
    if |urls| == 0 {
      AfterNothing(Scan(gaps[0] + tail));
    } else {
      var rest := Response(urls[1..], gaps[1..]) + tail;
      SeparableTail(urls, gaps);
      ResponseCons(urls, gaps, tail);
      ScanRecord(gaps[0], urls[0], rest);
      ScanResponseThen(urls[1..], gaps[1..], tail);
      AfterCons(urls, Scan(gaps[|urls|] + tail));
    }
  }

  /** Scanning a response gives back its URLs, in order. */
  lemma ScanResponseOf(urls: seq<string>, gaps: seq<string>)
    requires Separable(urls, gaps)
    ensures Scan(Response(urls, gaps)) == Scanned(urls)
  {
    ScanResponseThen(urls, gaps, "");
    assert Response(urls, gaps) + "" == Response(urls, gaps);
    assert gaps[|urls|] + "" == gaps[|urls|];
    assert urls + [] == urls;
  }

  /** The partner of the scan: a response with at least one record is a success carrying exactly its URLs. */
  lemma ScanOutcomeResponse(urls: seq<string>, gaps: seq<string>)
    requires |urls| > 0 && Separable(urls, gaps)
    ensures ScanOutcome(Response(urls, gaps)) == BatchOk(urls)
  {
    ScanResponseOf(urls, gaps);
  }

  /** A reply with status 200 and such a body gives back its URLs. */
  lemma RepliedResponse(urls: seq<string>, gaps: seq<string>)
    requires |urls| > 0 && Separable(urls, gaps)
    ensures ReplyOutcome(HttpReply(200, Response(urls, gaps))) == BatchOk(urls)
  {
    ScanOutcomeResponse(urls, gaps);
  }

  /** A response without any header is a failure. */
  lemma NoHeaderFails(text: string)
    requires !Contains(text, Header)
    ensures ScanOutcome(text) == BatchFailed(NoUrlsFound)
  {
  }

  /**
   * A header with no footer after it fails the whole call, whatever
   * complete records come before it: the URLs already collected are lost.
   */
  lemma FooterMissingFails(urls: seq<string>, gaps: seq<string>, rest: string)
    requires Separable(urls, gaps) && !Contains(rest, Footer)
    ensures ScanOutcome(Response(urls, gaps) + Header + rest) == BatchFailed(FooterNotFound)
  {
    var last := gaps[|urls|];
    assert Response(urls, gaps) + Header + rest == Response(urls, gaps) + (Header + rest);
    ScanResponseThen(urls, gaps, Header + rest);
    assert last + (Header + rest) == last + Header + rest;
    FirstHeader(last, rest);
    assert (last + Header + rest)[|last| + |Header|..] == rest;
  }
}
