/** The record-level rules of `run_pipeline`: which outlet records count as lounges, how the detail
    address the image scrape resolved replaces a record's own, which airports get a map pin, and
    which records survive the recheck of the addresses the pins use.

    The tables are sequences of records; the lookups the scrapes build are maps from a record's
    detail address to what the ladder gave for it. */
module Pipeline {
  import opened Text
  import opened Wrappers
  import opened Urls
  import opened LoungeUrls
  import opened Collections
  import opened Extraction
  import opened Escalation
  import opened Liveness

  // ---------------------------------------------------------------------------------------------
  // The lounge records

  /** The `iata_code` column: the record's own code, else the title's, else the empty string,
      upper-cased and stripped. */
  function IataCode(it: Item): string {
    var raw := if it.iataFromCode.Some? then it.iataFromCode.value
               else if it.iataFromTitle.Some? then it.iataFromTitle.value
               else "";
    Strip(Upper(raw))
  }

  /** A record that counts: a lounge, whose code is three capital letters, at a detail address.
      Dining and relaxation outlets do not count. */
  predicate Counts(it: Item) {
    IsLoungeItem(it) && IsIata(IataCode(it)) && IsLoungeDetailUrl(it.experienceDetailUrl)
  }

  /** The three filters on the merged outlet records, in record order. */
  function LoungeRecords(items: seq<Item>): seq<Item> {
    Filter(items, Counts)
  }

  /** A record is kept exactly when it is a lounge with a code at a detail address; this is also
      where payload records whose address is not a detail page are dropped. */
  lemma LoungeRecordsExact(items: seq<Item>, it: Item)
    ensures it in LoungeRecords(items)
        <==> it in items && IsLoungeItem(it) && IsIata(IataCode(it)) && IsLoungeDetailUrl(it.experienceDetailUrl)
  {
    FilterIn(items, Counts, it);
  }

  /** A record with a code of its own is filed under that code. */
  lemma IataCodeOfCode(it: Item)
    requires it.iataFromCode.Some? && IsIata(it.iataFromCode.value)
    ensures IataCode(it) == it.iataFromCode.value
  {
    var c := it.iataFromCode.value;
    assert Upper(c) == c;
    StripUnchanged(c);
  }

  // ---------------------------------------------------------------------------------------------
  // The addresses the image scrape resolved

  /** What `fetch_lounge_image` reported for each of the given addresses. */
  function ImageLookup(get: string -> Fetch, urls: set<string>): map<string, Option<string>> {
    map u | u in urls :: Reported(get, ClimbOf(Crawler(get), u))
  }

  /** `resolved_detail_url.fillna(experience_detail_url)`: the address the lookup resolved, when it
      has one, otherwise the record's own. */
  function ResolvedUrl(lookup: map<string, Option<string>>, u: string): string {
    if u in lookup && lookup[u].Some? then lookup[u].value else u
  }

  /** The records with their detail addresses replaced; nothing else about them changes. */
  function ApplyResolvedUrls(records: seq<Item>, lookup: map<string, Option<string>>): (rs: seq<Item>)
    ensures |rs| == |records|
  {
    seq(|records|, i requires 0 <= i < |records| =>
      records[i].(experienceDetailUrl := ResolvedUrl(lookup, records[i].experienceDetailUrl)))
  }

  /** The address a record ends up with is the one the lookup resolved for its own. */
  lemma ApplyResolvedAt(records: seq<Item>, lookup: map<string, Option<string>>, i: nat)
    requires i < |records|
    ensures ApplyResolvedUrls(records, lookup)[i]
         == records[i].(experienceDetailUrl := ResolvedUrl(lookup, records[i].experienceDetailUrl))
  {
  }

  /** After the image scrape a record's address is the one `fetch_lounge_image` reported for it,
      or its own when the scrape reported none (a check or the second GET raised, or an error
      status); nothing else about the record changes. */
  lemma ResolvedFromScrape(get: string -> Fetch, records: seq<Item>, urls: set<string>, i: nat)
    requires i < |records| && records[i].experienceDetailUrl in urls
    ensures var u := records[i].experienceDetailUrl;
            var rs := ApplyResolvedUrls(records, ImageLookup(get, urls));
            && rs[i].experienceDetailUrl
               == (match Reported(get, ClimbOf(Crawler(get), u)) case Some(v) => v case None => u)
            && rs[i].(experienceDetailUrl := u) == records[i]
  {
    ApplyResolvedAt(records, ImageLookup(get, urls), i);
  }

  /** When no probe of the ladder opens, the record is sent to the address the first check
      resolved to, which need not be a detail page: the failure is written over the record's
      address instead of leaving it alone. */
  lemma FailedScrapeKeepsFirstProbe(get: string -> Fetch, records: seq<Item>, urls: set<string>, i: nat)
    requires i < |records| && records[i].experienceDetailUrl in urls
    requires ClimbOf(Crawler(get), records[i].experienceDetailUrl).Climbed?
    requires !ClimbOf(Crawler(get), records[i].experienceDetailUrl).ok
    ensures ApplyResolvedUrls(records, ImageLookup(get, urls))[i].experienceDetailUrl
         == Resolved(Crawler(get), records[i].experienceDetailUrl)
  {
    var u := records[i].experienceDetailUrl;
    var lookup := ImageLookup(get, urls);
    ClimbFailed(Crawler(get), u);
    ImageLookupAt(get, urls, u);
    ReportedFailed(get, ClimbOf(Crawler(get), u));
    ResolvedUrlFound(lookup, u, Resolved(Crawler(get), u));
    ApplyResolvedAt(records, lookup, i);
  }

  lemma ImageLookupAt(get: string -> Fetch, urls: set<string>, u: string)
    requires u in urls
    ensures u in ImageLookup(get, urls) && ImageLookup(get, urls)[u] == Reported(get, ClimbOf(Crawler(get), u))
  {
  }

  lemma ReportedFailed(get: string -> Fetch, c: Climb)
    requires c.Climbed? && !c.ok
    ensures Reported(get, c) == Some(c.resolved)
  {
  }

  lemma ResolvedUrlFound(lookup: map<string, Option<string>>, u: string, v: string)
    requires u in lookup && lookup[u] == Some(v)
    ensures ResolvedUrl(lookup, u) == v
  {
  }

  /** For a detail address whose GET lands somewhere and whose probes all stay shut, that is
      where the GET landed. */
  lemma FailedScrapeLanding(get: string -> Fetch, records: seq<Item>, urls: set<string>, i: nat)
    requires i < |records| && records[i].experienceDetailUrl in urls
    requires IsLoungeDetailUrl(records[i].experienceDetailUrl)
    requires get(records[i].experienceDetailUrl).Received?
    requires Ladder(Crawler(get), records[i].experienceDetailUrl) == NoneOpened
    ensures ApplyResolvedUrls(records, ImageLookup(get, urls))[i].experienceDetailUrl
         == get(records[i].experienceDetailUrl).response.finalUrl
  {
    var u := records[i].experienceDetailUrl;
    CheckUrlOkVerdict(get, u);
    assert ClimbOf(Crawler(get), u) == Climbed(false, u, Resolved(Crawler(get), u));
    FailedScrapeKeepsFirstProbe(get, records, urls, i);
  }

  // ---------------------------------------------------------------------------------------------
  // Map pins

  /** An airport of the world table: its IATA code and its coordinates, where known. */
  datatype WorldAirport = WorldAirport(iataCode: string, latitude: Option<real>, longitude: Option<real>)

  /** The `lounge_count` of a code: how many lounge records carry it. */
  function LoungeCount(records: seq<Item>, iata: string): nat {
    CountKey(records, IataCode, iata)
  }

  /** An airport gets a pin when it has a lounge and both coordinates. */
  predicate HasPin(records: seq<Item>, a: WorldAirport) {
    LoungeCount(records, a.iataCode) > 0 && a.latitude.Some? && a.longitude.Some?
  }

  /** The airports that get a pin, in table order. */
  function MapPins(world: seq<WorldAirport>, records: seq<Item>): seq<WorldAirport> {
    Filter(world, a => HasPin(records, a))
  }

  /** An airport is pinned exactly when it is in the table, has both coordinates, and some lounge
      record carries its code. */
  lemma MapPinsExact(world: seq<WorldAirport>, records: seq<Item>, a: WorldAirport)
    ensures a in MapPins(world, records)
        <==> && a in world && a.latitude.Some? && a.longitude.Some?
             && exists i | 0 <= i < |records| :: IataCode(records[i]) == a.iataCode
  {
    CountKeyPositive(records, IataCode, a.iataCode);
    FilterIn(world, a => HasPin(records, a), a);
  }

  // ---------------------------------------------------------------------------------------------
  // The recheck

  /** The codes of the pinned airports. */
  function PinCodes(pins: seq<WorldAirport>): set<string> {
    set a | a in pins :: a.iataCode
  }

  /** The addresses the recheck visits: those of the lounge records filed under a pinned code. */
  function MapUrls(records: seq<Item>, codes: set<string>): set<string> {
    set i | 0 <= i < |records| && IataCode(records[i]) in codes :: records[i].experienceDetailUrl
  }

  /** What `recheck_and_fix` gave for each of the given addresses. */
  function RecheckLookup(get: string -> Fetch, urls: set<string>): map<string, string> {
    map u | u in urls :: Fixed(Ladder(Crawler(get), u))
  }

  /** `recheck_lookup.get(u, "")`. */
  function Recheck(lookup: map<string, string>, u: string): string {
    if u in lookup then lookup[u] else ""
  }

  /** The records after the recheck: each takes the address the recheck gave for its own, and
      those given the empty string, or never rechecked, are dropped. */
  function Rechecked(records: seq<Item>, lookup: map<string, string>): (rs: seq<Item>)
    ensures |rs| <= |records|
    decreases |records|
  {
    if records == [] then []
    else
      var prev := Rechecked(records[..|records| - 1], lookup);
      var it := records[|records| - 1];
      var u := Recheck(lookup, it.experienceDetailUrl);
      if u == "" then prev else prev + [it.(experienceDetailUrl := u)]
  }

  /** Every surviving record is a record whose address the recheck mapped to a non-empty address,
      now carrying that address. */
  lemma {:induction false} RecheckedSound(records: seq<Item>, lookup: map<string, string>, k: nat)
    requires k < |Rechecked(records, lookup)|
    ensures exists i | 0 <= i < |records| ::
              && Recheck(lookup, records[i].experienceDetailUrl) != ""
              && Rechecked(records, lookup)[k] == records[i].(experienceDetailUrl := Recheck(lookup, records[i].experienceDetailUrl))
    decreases |records|
  {
    var init := records[..|records| - 1];
    var prev := Rechecked(init, lookup);
    if k < |prev| {
      RecheckedSound(init, lookup, k);
      var i :| 0 <= i < |init| && Recheck(lookup, init[i].experienceDetailUrl) != ""
               && prev[k] == init[i].(experienceDetailUrl := Recheck(lookup, init[i].experienceDetailUrl));
      assert records[i] == init[i];
    } else {
      assert records[|records| - 1] == records[|records| - 1];
    }
  }

  /** ... and every record the recheck mapped to a non-empty address survives with it. */
  lemma {:induction false} RecheckedComplete(records: seq<Item>, lookup: map<string, string>, i: nat)
    requires i < |records| && Recheck(lookup, records[i].experienceDetailUrl) != ""
    ensures records[i].(experienceDetailUrl := Recheck(lookup, records[i].experienceDetailUrl)) in Rechecked(records, lookup)
    decreases |records|
  {
    var init := records[..|records| - 1];
    if i < |init| {
      assert init[i] == records[i];
      RecheckedComplete(init, lookup, i);
    }
  }

  /** A record survives the recheck only with the canonical form of the address a detail page
      resolved to when a probe of its ladder opened: the GET of that probe gave a healthy response
      that ended on a detail page. */
  lemma RecheckedLive(get: string -> Fetch, records: seq<Item>, urls: set<string>, k: nat)
    requires k < |Rechecked(records, RecheckLookup(get, urls))|
    ensures exists i | 0 <= i < |records| ::
              && records[i].experienceDetailUrl in urls
              && var o := Ladder(Crawler(get), records[i].experienceDetailUrl);
                 && o.Opened?
                 && Rechecked(records, RecheckLookup(get, urls))[k].experienceDetailUrl == ToMyPriorityPassUrl(o.resolved)
                 && IsLoungeDetailUrl(o.resolved)
                 && get(o.url).Received? && get(o.url).response.finalUrl == o.resolved
                 && Healthy(get(o.url).response)
  {
    var lookup := RecheckLookup(get, urls);
    RecheckedSound(records, lookup, k);
    var i :| 0 <= i < |records| && Recheck(lookup, records[i].experienceDetailUrl) != ""
             && Rechecked(records, lookup)[k] == records[i].(experienceDetailUrl := Recheck(lookup, records[i].experienceDetailUrl));
    var u := records[i].experienceDetailUrl;
    assert u in urls;
    LadderOpensLive(get, u);
  }

  /** Only records at an address some record of a pinned airport uses survive the recheck (the
      recheck's lookup holds only those addresses); a record of an airport without a pin survives
      only when it shares its address with one. */
  lemma RecheckedOnMap(records: seq<Item>, codes: set<string>, lookup: map<string, string>, k: nat)
    requires lookup.Keys <= MapUrls(records, codes)
    requires k < |Rechecked(records, lookup)|
    ensures exists i, j | 0 <= i < |records| && 0 <= j < |records| ::
              && Rechecked(records, lookup)[k].(experienceDetailUrl := records[i].experienceDetailUrl) == records[i]
              && records[j].experienceDetailUrl == records[i].experienceDetailUrl
              && IataCode(records[j]) in codes
  {
    RecheckedSound(records, lookup, k);
    var i :| 0 <= i < |records| && Recheck(lookup, records[i].experienceDetailUrl) != ""
             && Rechecked(records, lookup)[k] == records[i].(experienceDetailUrl := Recheck(lookup, records[i].experienceDetailUrl));
    var u := records[i].experienceDetailUrl;
    assert u in MapUrls(records, codes);
    var j :| 0 <= j < |records| && IataCode(records[j]) in codes && records[j].experienceDetailUrl == u;
    assert Rechecked(records, lookup)[k].(experienceDetailUrl := u) == records[i];
  }
}
