/** Whether a lounge detail page is alive (`check_url_ok`), and the crawler's two climbs of the
    escalation ladder when it is not (`recheck_and_fix`, `fetch_lounge_image`).

    The HTTP GET is an oracle `get` from an address to what the request gave, redirects followed. */
module Liveness {
  import opened Text
  import opened Wrappers
  import opened Urls
  import opened LoungeUrls
  import opened Escalation

  /** A response after redirects: its status code, the address it ends at, and its text (`None`
      taken as the empty text). */
  datatype Response = Response(status: int, finalUrl: string, body: string)

  /** A GET either raises (a network error or a timeout) or gives a response. */
  datatype Fetch = Raised | Received(response: Response)

  /** How much of a page the soft-404 test reads. */
  const HeadLength: nat := 2500

  /** `(text or "")[:2500].lower()`. */
  function Head(body: string): (h: string)
    ensures |h| == if |body| < HeadLength then |body| else HeadLength
  {
    Lower(if |body| < HeadLength then body else body[..HeadLength])
  }

  /** The soft-404 test: the head of the page says "page not found", or says "404" without
      saying "lounge". */
  predicate LooksNotFound(body: string) {
    var head := Head(body);
    Contains(head, "page not found") || (Contains(head, "404") && !Contains(head, "lounge"))
  }

  /** A response that counts as a live page: no error status and no soft 404. */
  predicate Healthy(r: Response) {
    r.status < 400 && !LooksNotFound(r.body)
  }

  /** `check_url_ok`: an address that is not a detail page is refused without a request; a request
      that lands off the detail pages is refused; otherwise the page is live when it is healthy. */
  function CheckUrlOk(get: string -> Fetch, url: string): (c: Check)
    ensures !IsLoungeDetailUrl(url) ==> c == Checked(false, url)
    ensures c.Checked? && c.ok ==> IsLoungeDetailUrl(url) && IsLoungeDetailUrl(c.resolved)
  {
    if !IsLoungeDetailUrl(url) then Checked(false, url)
    else
      match get(url)
      case Raised => CheckRaised
      case Received(response) =>
        if !IsLoungeDetailUrl(response.finalUrl) then Checked(false, response.finalUrl)
        else Checked(Healthy(response), response.finalUrl)
  }

  /** The verdict of `check_url_ok` on a detail page: it raises exactly when the GET raises; it is
      live exactly when the GET ends on a detail page with a healthy response; and it resolves to
      the address the GET ended at. */
  lemma CheckUrlOkVerdict(get: string -> Fetch, url: string)
    requires IsLoungeDetailUrl(url)
    ensures CheckUrlOk(get, url) == CheckRaised <==> get(url) == Raised
    ensures CheckUrlOk(get, url).Checked? && CheckUrlOk(get, url).ok
        <==> get(url).Received? && IsLoungeDetailUrl(get(url).response.finalUrl) && Healthy(get(url).response)
    ensures CheckUrlOk(get, url).Checked? ==> get(url).Received? && CheckUrlOk(get, url).resolved == get(url).response.finalUrl
  {
  }

  /** The soft-404 test does not depend on letter case. */
  lemma NotFoundIgnoresCase(body: string)
    ensures LooksNotFound(Lower(body)) == LooksNotFound(body)
  {
    assert Head(Lower(body)) == Head(body) by {
      var n := if |body| < HeadLength then |body| else HeadLength;
      forall i | 0 <= i < n ensures Head(Lower(body))[i] == Head(body)[i] {
        LowerCharTwice(body[i]);
      }
    }
  }

  lemma LowerCharTwice(c: char)
    ensures LowerChar(LowerChar(c)) == LowerChar(c)
  {
  }

  /** ... and it reads only the first 2500 characters: what follows them changes nothing. */
  lemma NotFoundReadsHead(body: string, rest: string)
    requires |body| >= HeadLength
    ensures LooksNotFound(body + rest) == LooksNotFound(body)
  {
    assert (body + rest)[..HeadLength] == body[..HeadLength];
  }

  // ---------------------------------------------------------------------------------------------
  // The crawler's ladder

  /** The crawler's steps: `check_url_ok` over the GET, `try_recover_detail_url_from_redirect` and
      `repair_duplicated_airport_segment`. */
  function Crawler(get: string -> Fetch): Steps {
    Steps(u => CheckUrlOk(get, u), TryRecoverDetailUrlFromRedirect, RepairDuplicatedAirportSegment)
  }

  /** The crawler's ladder opens only a detail page whose GET gave a healthy response that ended on
      a detail page, and it reports that address. */
  lemma LadderOpensLive(get: string -> Fetch, url: string)
    requires Ladder(Crawler(get), url).Opened?
    ensures var o := Ladder(Crawler(get), url);
            && o.url in Probes(Crawler(get), url)
            && IsLoungeDetailUrl(o.url) && IsLoungeDetailUrl(o.resolved)
            && get(o.url).Received? && get(o.url).response.finalUrl == o.resolved
            && Healthy(get(o.url).response)
  {
    var o := Ladder(Crawler(get), url);
    LadderOpened(Crawler(get), url);
    CheckedLive(get, o.url, o.resolved);
  }

  /** A live verdict comes from a healthy response that ended on a detail page. */
  lemma CheckedLive(get: string -> Fetch, u: string, resolved: string)
    requires CheckUrlOk(get, u) == Checked(true, resolved)
    ensures IsLoungeDetailUrl(u) && IsLoungeDetailUrl(resolved)
    ensures get(u).Received? && get(u).response.finalUrl == resolved && Healthy(get(u).response)
  {
    CheckUrlOkVerdict(get, u);
  }

  /** An address that is not a detail page is refused without a request, and nothing else is tried:
      it cannot be recovered from itself and the repair leaves it alone. */
  lemma LadderNonDetail(get: string -> Fetch, url: string)
    requires !IsLoungeDetailUrl(url)
    ensures Probes(Crawler(get), url) == [url]
    ensures Ladder(Crawler(get), url) == NoneOpened
  {
    var s := Crawler(get);
    assert s.check(url) == Checked(false, url);
    RecoverNonDetailSelf(url);
    RepairKeepsNonDetail(url);
    assert s.recover(url, Resolved(s, url)) == None;
    assert s.repair(url) == url;
    ProbesAlone(s, url);
    FirstOpenNone(s.check, [url]);
  }

  /** What `recheck_and_fix` returns when the ladder ends this way. */
  function Fixed(o: Outcome): string {
    if o.Opened? then ToMyPriorityPassUrl(o.resolved) else ""
  }

  /** `recheck_and_fix`: the canonical form of the address the first live probe resolved to, or
      the empty string when no probe opened, a check raised or the address is not a detail page. */
  method RecheckAndFix(get: string -> Fetch, url: string) returns (fixed: string)
    ensures fixed == Fixed(Ladder(Crawler(get), url))
  {
    if !IsLoungeDetailUrl(url) {
      LadderNonDetail(get, url);
      return "";
    }
    var o := ClimbByReturns(Crawler(get), url);
    return if o.Opened? then ToMyPriorityPassUrl(o.resolved) else "";
  }

  /** `raise_for_status()`: client and server error codes raise. */
  predicate RaisesForStatus(status: int) {
    400 <= status < 600
  }

  /** The detail address `fetch_lounge_image` reports when it leaves the ladder this way: nothing
      after a raised check; when no probe opened, the address the first check resolved to;
      otherwise the canonical form of where a second GET of the resolved address ended, unless
      that GET raised or gave an error status. */
  function Reported(get: string -> Fetch, climb: Climb): Option<string> {
    match climb
    case ClimbRaised => None
    case Climbed(ok, _, resolved) =>
      if !ok then Some(resolved)
      else
        var page := get(resolved);
        if page.Raised? || RaisesForStatus(page.response.status) then None
        else Some(ToMyPriorityPassUrl(page.response.finalUrl))
  }

  /** `fetch_lounge_image`, less the image and title it reads off the page: the detail address it
      reports. */
  method FetchLoungeImage(get: string -> Fetch, loungeUrl: string) returns (resolvedDetail: Option<string>)
    ensures resolvedDetail == Reported(get, ClimbOf(Crawler(get), loungeUrl))
  {
    var climb := ClimbBySteps(Crawler(get), loungeUrl);
    resolvedDetail := Reported(get, climb);
  }
}
