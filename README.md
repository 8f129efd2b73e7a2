# Priority Pass lounge crawler — URL and record rules, in Dafny

`generate_priority_pass_map_v2.py` crawls the Priority Pass lounge directory. It lists the airports, reads
each airport page for its lounge, dining and relaxation outlets, and keeps only the lounges. It checks
that each lounge's detail page still opens, and draws a map of the world's airports that have one.
This project models the rules of that crawler that decide which address a lounge ends up with and
which records survive:

- canonicalisation of an address to the `https://my.prioritypass.com/en-GB/...` form, the lounge
  detail-page classifier and the normalisation of card links (module `LoungeUrls`);
- the repair of an address with a duplicated airport segment, and the rebuilding of a detail
  address from the country or airport page a request was redirected to (`LoungeUrls`);
- the liveness check of a detail page, including its soft-404 test (`Liveness`);
- the escalation ladder both `recheck_and_fix` and `fetch_lounge_image` climb (direct check,
  recovery from the redirect, repair, recovery of the repaired address), written once over its
  steps (`Escalation`) and instantiated with the crawler's own steps (`Liveness.Crawler`);
- what an airport page yields: the card loop, the embedded-payload loop, the merge, the
  order-preserving de-duplication by type and slug, and the choice of the airport's IATA code
  (`Extraction`, with the de-duplication loop in `Collections`);
- `extract_iata_candidates`, including the `\b([A-Z]{3})\b` scan and its resume-after-match
  behaviour (`Extraction`);
- the record-level steps of `run_pipeline`: the LOUNGE / IATA / detail-page filters, the write-back
  of the address the image scrape resolved, the map-pin rule, and the drop of records whose
  address the recheck could not confirm (`Pipeline`).

`Text` models the string operations the code uses (`strip`, `lower`, `upper`, `startswith`,
`count`, `split`). White space is Python's `str.isspace` set; letter case is mapped on ASCII letters only. `Urls` models `urllib.parse.urlparse` / `urlunparse` as far as these
functions use them: the control characters and tab/newline scrubbing, the scheme, netloc, path,
`;params`, `?query` and `#fragment` split, and the path segments `[p for p in path.strip("/").split("/") if p]`.

HTTP is an oracle: `get: string -> Fetch` says for each address whether the request raised or what
response (status, final address after redirects, text) it gave. The regular-expression scan of the
embedded payload is a sequence of its matches. The search for a canonical path in the page is an
oracle `pathFor` from a slug to what it found. Anchors are (href, text) pairs.

Functions state the rules; each loop of the source is a method proved against the function that
states what it computes (`ExtractIataCandidates`, `Dedupe`, `CollectCardItems`, `ExtractOutletItems`,
`FileRecords`, `SelectAirportIata`, `ParseAirportPage`, `RecheckAndFix`, `FetchLoungeImage`).

## Model

| member | source | states |
|---|---|---|
| LoungeUrls.ToMyPriorityPassUrl | generate_priority_pass_map_v2.py:47-66 | the result is empty exactly when the stripped input is blank; otherwise it is an address on `https://my.prioritypass.com/` |
| LoungeUrls.ToMyParsesBack | generate_priority_pass_map_v2.py:51-66 | a non-blank input becomes an https address on my.prioritypass.com whose path is the canonical path of the input, with no params, query or fragment |
| LoungeUrls.ToMyRooted | generate_priority_pass_map_v2.py:55-66 | a host-less rooted path of plain segments (no `?`, `#`, `;`, control characters, or white space at either end) keeps its segments, and a `/lounges/...` path gains the `/en-GB` prefix |
| LoungeUrls.CanonicalOfCanonical | generate_priority_pass_map_v2.py:55-66 | an address already in canonical form (not under `/lounges/`) is its own canonical form |
| LoungeUrls.ToMyIdempotent | generate_priority_pass_map_v2.py:47-66 | for input free of query, fragment, params and control characters, canonicalising twice gives what canonicalising once gives |
| LoungeUrls.ToMyNotIdempotent | generate_priority_pass_map_v2.py:55-66 | a host-less `/lounges/...?q` path keeps its query the first time (it is taken whole as the path) and loses it the second time, so canonicalisation is not idempotent |
| LoungeUrls.ToMyQueryOnce | generate_priority_pass_map_v2.py:56-62 | a host-less `/lounges/` path with a query is prefixed and keeps the query |
| LoungeUrls.ToMyQueryTwice | generate_priority_pass_map_v2.py:55-66 | a canonical address with a query loses the query |
| LoungeUrls.CanonicalDetail | generate_priority_pass_map_v2.py:69-82 | a canonical address is a detail page exactly when its segments are `en-GB/lounges/` plus at least three, or `lounges/` plus at least three |
| LoungeUrls.RootedDetail | generate_priority_pass_map_v2.py:69-82 | the same classification for a host-less rooted path of plain segments |
| LoungeUrls.ToMyRootedDetail | generate_priority_pass_map_v2.py:55-82 | canonicalising a rooted path neither makes nor unmakes a detail page |
| LoungeUrls.KeepIfDetail | generate_priority_pass_map_v2.py:96 | a candidate is kept only when it is a detail page, and unchanged |
| LoungeUrls.NormalizeLoungeDetailUrl | generate_priority_pass_map_v2.py:85-104 | a result is a canonical detail address; a blank href or a `#` fragment gives none; a relative card link with no country gives none |
| LoungeUrls.NormalizeResult | generate_priority_pass_map_v2.py:85-104 | a result is `https://my.prioritypass.com` plus a rooted path, and it is its own canonical form |
| LoungeUrls.NormalizeCanonical | generate_priority_pass_map_v2.py:94-96 | a canonical detail address normalises to itself, whatever the country |
| LoungeUrls.NormalizeIdempotent | generate_priority_pass_map_v2.py:85-104 | normalising a normalised address gives it back |
| LoungeUrls.NormalizeCardLink | generate_priority_pass_map_v2.py:100-104 | a card link `<airport>/<slug>` becomes `/en-GB/lounges/<country>/<airport>/<slug>` on my.prioritypass.com |
| LoungeUrls.ToMyNonBlank | generate_priority_pass_map_v2.py:51-66 | a non-blank input becomes the host followed by its canonical path, which does not end in white space |
| LoungeUrls.RepairDuplicatedAirportSegment | generate_priority_pass_map_v2.py:107-129 | an address without a duplicated airport segment is returned as it is |
| LoungeUrls.RepairRemovesSegment | generate_priority_pass_map_v2.py:113-127 | the repair drops exactly the segment after the country, keeps the scheme and host (defaulting them to https and my.prioritypass.com), drops params, query and fragment, and gives a detail page |
| LoungeUrls.RepairSettles | generate_priority_pass_map_v2.py:107-129 | repairing an address with exactly one extra segment twice is the same as once |
| LoungeUrls.RepairNotIdempotent | generate_priority_pass_map_v2.py:107-129 | an address with more segments is shortened again by a second repair |
| LoungeUrls.RepairKeepsNonDetail | generate_priority_pass_map_v2.py:107-129 | the repair leaves an address that is not a detail page alone |
| LoungeUrls.TryRecoverDetailUrlFromRedirect | generate_priority_pass_map_v2.py:147-179 | a rebuilt address is a canonical detail address |
| LoungeUrls.RecoverFromSegments | generate_priority_pass_map_v2.py:156-179 | an original with fewer than five segments gives nothing; so does a redirect that is not an `en-GB/lounges` page with at least three segments |
| LoungeUrls.RecoverFromAirportPage | generate_priority_pass_map_v2.py:164-170 | with plain segments, a redirect to an airport page gives its country and airport with the original's slug |
| LoungeUrls.RecoverFromCountryPage | generate_priority_pass_map_v2.py:172-177 | with plain segments, a redirect to a country page gives that country with the original's airport and slug |
| LoungeUrls.DetailPathCanonical | generate_priority_pass_map_v2.py:168-176 | a rebuilt `/en-GB/lounges/<c>/<a>/<s>` path is its own canonical path and a detail page |
| LoungeUrls.RecoverNonDetailSelf | generate_priority_pass_map_v2.py:147-179 | an address that is not a detail page cannot be rebuilt from itself |
| LoungeUrls.RecoverNeedsFiveSegments | generate_priority_pass_map_v2.py:156-160 | a `/lounges/<c>/<a>/<s>` address, which the classifier at lines 78-81 accepts, has four segments, so recovery never rebuilds it |
| LoungeUrls.IndexLinkNotDetail | generate_priority_pass_map_v2.py:187 | an airport index link has at most three segments and is not a detail page |
| Liveness.CheckUrlOk | generate_priority_pass_map_v2.py:132-144 | an address that is not a detail page is refused as itself without a request; a live verdict needs a detail page that resolved to a detail page |
| Liveness.CheckUrlOkVerdict | generate_priority_pass_map_v2.py:136-144 | the check raises exactly when the GET raises; it is live exactly when the GET ends on a detail page with status below 400 and no soft 404; it resolves to where the GET ended |
| Liveness.Head | generate_priority_pass_map_v2.py:141 | the soft-404 test reads at most 2500 characters |
| Liveness.NotFoundIgnoresCase | generate_priority_pass_map_v2.py:141-142 | the soft-404 test does not depend on letter case |
| Liveness.NotFoundReadsHead | generate_priority_pass_map_v2.py:141-142 | text after the first 2500 characters does not change the soft-404 verdict |
| Liveness.CheckedLive | generate_priority_pass_map_v2.py:136-144 | a live verdict comes from a healthy GET that ended on a detail page |
| Liveness.LadderOpensLive | generate_priority_pass_map_v2.py:944-967 | the ladder opens only one of its probes, a detail page whose GET was healthy and ended on a detail page |
| Liveness.LadderNonDetail | generate_priority_pass_map_v2.py:946-947 | an address that is not a detail page is the only probe and nothing opens |
| Liveness.RecheckAndFix | generate_priority_pass_map_v2.py:944-970 | the result is the canonical form of what the first live probe resolved to, or empty when none opened, a check raised, or the address is not a detail page |
| Liveness.FetchLoungeImage | generate_priority_pass_map_v2.py:406-459 | the address reported is nothing after a raised check, the first check's resolution when no probe opened, otherwise the canonical form of where the second GET ended unless it raised or gave an error status |
| Escalation.Probes | generate_priority_pass_map_v2.py:408-432 | the ladder tries one to four addresses, starting with the address itself |
| Escalation.RepairProbes | generate_priority_pass_map_v2.py:418-432 | the repaired address is tried, first, exactly when the repair changed the address |
| Escalation.FirstOpenOpened | generate_priority_pass_map_v2.py:944-967 | an opened probe is checked live and every probe before it was refused |
| Escalation.FirstOpenStops | generate_priority_pass_map_v2.py:944-969 | the first probe not refused decides: it opens, or the whole ladder raises |
| Escalation.FirstOpenNone | generate_priority_pass_map_v2.py:944-970 | nothing opens exactly when every probe is refused |
| Escalation.FirstOpenConcat | generate_priority_pass_map_v2.py:944-970 | trying two lists of probes in turn is trying the second only when the first ends with none opened |
| Escalation.LadderOpened | generate_priority_pass_map_v2.py:944-967 | the ladder opens one of its probes, which checked live |
| Escalation.LadderDirectFirst | generate_priority_pass_map_v2.py:948-950 | a first check that is not refused decides the ladder alone |
| Escalation.LadderAfterRefusal | generate_priority_pass_map_v2.py:952-967 | after a refusal the ladder tries the rebuilt address, then the repair's probes |
| Escalation.LadderNoneOpened | generate_priority_pass_map_v2.py:944-970 | the ladder ends with none opened exactly when every probe is refused |
| Escalation.ClimbByReturns | generate_priority_pass_map_v2.py:948-967 | the early-return climb ends as the ladder does |
| Escalation.ClimbRepairByReturns | generate_priority_pass_map_v2.py:958-967 | the repair branch of the climb ends as its probes do |
| Escalation.ClimbBySteps | generate_priority_pass_map_v2.py:408-434 | the flag-carrying climb of `fetch_lounge_image` ends as the ladder does, keeping the first check's resolution when nothing opens |
| Extraction.LeadingIata | generate_priority_pass_map_v2.py:255-257 | the code is three capital letters the text starts with, and there is none only when the text does not start with three |
| Extraction.ExtractIataCandidates | generate_priority_pass_map_v2.py:192-202 | the loop returns the scan's tokens, first occurrence of each |
| Extraction.TokensSound | generate_priority_pass_map_v2.py:195 | every token the scan reports is a whole-word match of three capital letters |
| Extraction.TokensComplete | generate_priority_pass_map_v2.py:195 | every whole-word match at or after the scan's start is reported |
| Extraction.CandidatesAreTokens | generate_priority_pass_map_v2.py:192-202 | every candidate is three capital letters found as a whole word in the upper-cased text |
| Extraction.TokenIsCandidate | generate_priority_pass_map_v2.py:192-202 | every whole-word three-letter token of the upper-cased text is a candidate |
| Extraction.CandidatesDistinct | generate_priority_pass_map_v2.py:196-202 | the candidates are distinct and each is the first occurrence of its token |
| Extraction.TitleRouteDead | generate_priority_pass_map_v2.py:294-296 | the title search never finds a code, whatever the title |
| Extraction.WordEnd | generate_priority_pass_map_v2.py:311 | the first word runs up to the first white space |
| Extraction.LastPiece | generate_priority_pass_map_v2.py:320 | the detail slug contains no slash |
| Extraction.CollectCardItems | generate_priority_pass_map_v2.py:305-344 | the card loop files the items of the cards, in order, into lounges and other outlets |
| Extraction.CardListsPartition | generate_priority_pass_map_v2.py:341-344 | every card item lands in exactly one of the two lists |
| Extraction.AnchorItemWhen | generate_priority_pass_map_v2.py:305-319 | a card yields an item exactly when its href and text are non-blank, its first word is an outlet type, and its href normalises |
| Extraction.AnchorItemFacts | generate_priority_pass_map_v2.py:311-340 | a card item carries the airport's address, slug, country slug, name and title and the title's code; its type is the upper-cased first word of the link text; its name is the rest of the text, or that first word when the text has one word; its address is the normalised detail address, its slug that address's last piece, and its code the three capital letters the slug's first part starts with |
| Extraction.CardLinkItem | generate_priority_pass_map_v2.py:317-326 | a card link `<airport>/<slug>` gives the detail address `/en-GB/lounges/<country>/<airport>/<slug>` and the slug itself |
| Extraction.PayloadCode | generate_priority_pass_map_v2.py:253-261 | a payload record's code is three capital letters: those the outlet code starts with, or, when it does not start with three, those the upper-cased slug starts with |
| Extraction.ExtractOutletItems | generate_priority_pass_map_v2.py:234-279 | the payload loop returns the records of the matches, in match order |
| Extraction.PayloadItemWhen | generate_priority_pass_map_v2.py:235-240 | a match yields a record exactly when its category, name and slug are non-blank |
| Extraction.PayloadItemFacts | generate_priority_pass_map_v2.py:235-277 | a payload record carries the airport's address, slug, country slug, name and title and the title's code, the upper-cased category, the stripped name and slug, the detail address, and as its code the payload code of its upper-cased stripped outlet code and its slug |
| Extraction.FallbackDetail | generate_priority_pass_map_v2.py:250-251 | the fallback path becomes a canonical detail address |
| Extraction.Dedupe | generate_priority_pass_map_v2.py:363-372 | the loop keeps the first item of each type and slug, in order |
| Extraction.FirstIata | generate_priority_pass_map_v2.py:385-389 | the choice is a candidate of three capital letters, and there is none only when no candidate is one |
| Extraction.FirstIataPosition | generate_priority_pass_map_v2.py:386-389 | the choice is the candidate at the first position holding a code |
| Extraction.FirstIataConcat | generate_priority_pass_map_v2.py:377-389 | later candidates are consulted only when no earlier one is a code |
| Extraction.CollectLoungeCodes | generate_priority_pass_map_v2.py:378-380 | the loop lists the lounges' codes, in order |
| Extraction.FirstFullMatch | generate_priority_pass_map_v2.py:385-389 | the loop stops at the first candidate that is three capital letters |
| Extraction.SelectAirportIata | generate_priority_pass_map_v2.py:377-389 | the airport's code is the first code among the lounges' codes, the title's marked code and the title's tokens |
| Extraction.LoungeCodesWin | generate_priority_pass_map_v2.py:377-389 | a lounge with a code decides the airport's code |
| Extraction.TitleTokenFallback | generate_priority_pass_map_v2.py:381-389 | without lounge codes the airport's code is the title's first token, if any |
| Extraction.FileRecords | generate_priority_pass_map_v2.py:356-360 | the merge appends the payload's lounges and other outlets after the cards' |
| Extraction.ParseAirportPage | generate_priority_pass_map_v2.py:282-403 | the page's lists, counts and code are those of the cards and payload merged and de-duplicated |
| Extraction.PageListsClean | generate_priority_pass_map_v2.py:341-375 | the page's lounges are lounges, its other outlets are not, and neither list holds two items of one type and slug |
| Extraction.CardsWinOverPayload | generate_priority_pass_map_v2.py:346-375 | the de-duplicated card lounges come first, and a payload lounge is kept only when no card has its type and slug |
| Collections.DedupIsFirsts | generate_priority_pass_map_v2.py:363-372 | the de-duplication keeps exactly the items that are the first of their key, in order |
| Collections.DedupDistinct | generate_priority_pass_map_v2.py:363-372 | no two kept items share a key |
| Collections.DedupKeys | generate_priority_pass_map_v2.py:363-372 | every key of the input survives |
| Collections.DedupFromInput | generate_priority_pass_map_v2.py:363-372 | every kept item is from the input, and there are no more of them |
| Collections.DedupOfDistinct | generate_priority_pass_map_v2.py:363-372 | input without repeated keys is kept whole |
| Collections.DedupIdempotent | generate_priority_pass_map_v2.py:363-375 | de-duplicating twice is de-duplicating once |
| Collections.DedupExtends | generate_priority_pass_map_v2.py:356-375 | appending items keeps the earlier result as a prefix and adds only items of new keys |
| Pipeline.LoungeRecordsExact | generate_priority_pass_map_v2.py:846-858 | a record is kept exactly when it is a lounge, its code is three capital letters, and its address is a detail page |
| Pipeline.IataCodeOfCode | generate_priority_pass_map_v2.py:847-854 | a record with a code of its own is filed under that code |
| Pipeline.ResolvedFromScrape | generate_priority_pass_map_v2.py:866-892 | after the image scrape a record's address is what `fetch_lounge_image` reported, or its own when it reported nothing; nothing else changes |
| Pipeline.FailedScrapeKeepsFirstProbe | generate_priority_pass_map_v2.py:887-892 | when no probe opens, the record's address becomes what the first check resolved to (the value `fetch_lounge_image` returns at line 434) |
| Pipeline.FailedScrapeLanding | generate_priority_pass_map_v2.py:887-892 | for a detail address that no probe opens, that is where its GET landed |
| Pipeline.MapPinsExact | generate_priority_pass_map_v2.py:896-936 | an airport is pinned exactly when it has both coordinates and some lounge record carries its code |
| Pipeline.Rechecked | generate_priority_pass_map_v2.py:980-983 | the recheck never adds records |
| Pipeline.RecheckedSound | generate_priority_pass_map_v2.py:980-983 | every surviving record is a record whose address the recheck mapped to a non-empty one, carrying it |
| Pipeline.RecheckedComplete | generate_priority_pass_map_v2.py:980-983 | every record the recheck mapped to a non-empty address survives with it |
| Pipeline.RecheckedLive | generate_priority_pass_map_v2.py:944-983 | a surviving record carries the canonical form of where a healthy GET of a detail page ended |
| Pipeline.RecheckedOnMap | generate_priority_pass_map_v2.py:939-983 | a surviving record shares its address with a record of a pinned airport |

## Where the code does something other than what it is for

The model follows the code. In the following places the code does not do what its names,
docstrings and comments say it is for. Each behaviour is stated as a lemma:

- `to_my_prioritypass_url` (lines 47-66) is meant to turn an address or path into its
  `my.prioritypass.com/en-GB` form, so an address already in that form should be left alone. That
  holds for plain input (`ToMyIdempotent`). A host-less `/lounges/...?q` input, however, is taken
  whole as the path, so it keeps its query the first time and loses it the second
  (`ToMyNotIdempotent`).
- `repair_duplicated_airport_segment`'s docstring (lines 108-111) describes removing one wrong
  airport segment. An address with two extra segments is shortened again by a second repair
  (`RepairNotIdempotent`); with exactly one extra segment the repair settles (`RepairSettles`).
- The comment at line 293 gives "... SFO Lounges ..." as the title the search at line 294 reads a
  code from. The search runs on the upper-cased title for the word "Lounges", spelt with lower-case
  letters, so it never matches (`TitleRouteDead`). The airport's code falls back to the title's
  first three-letter token instead.
- A lounge whose detail page cannot be confirmed would be expected to lose its address. In the
  image-scrape step, a ladder where nothing opens instead writes what the first check resolved to
  over the record's address (`FailedScrapeKeepsFirstProbe`, `FailedScrapeLanding`). The recheck
  (lines 939-983) keeps such a record only when some record of a pinned airport has the same new
  address and the recheck of that address succeeds (`RecheckedOnMap`, `RecheckedLive`). Any other
  record is dropped there, pinned or not, because the recheck's lookup gives it the empty string.
- Card links pass the detail-page classifier when they are built (line 318). Payload records
  (lines 248-251) do not (`PayloadItemFacts` says nothing about the address being a detail page).
  The later pipeline filter drops the ones that are not detail pages (`LoungeRecordsExact`).
- `try_recover_detail_url_from_redirect` (lines 147-179) needs an original of at least five
  segments (line 159). A detail address `/lounges/<c>/<a>/<s>` has four segments and is accepted
  by the classifier (lines 80-81), yet it is never recovered (`RecoverNeedsFiveSegments`).

## Left out

- Network requests, timeouts and retries: the GET is the oracle `get`, deterministic per address; a
  second request to the same address gives the same answer.
- Thread pools (`ThreadPoolExecutor`): the lookups are maps over the set of addresses, so the order
  in which futures complete plays no part.
- HTML parsing (BeautifulSoup): anchors come in as (href, text) pairs, the page title as a string.
- The regular-expression scan of the embedded payload (`\/` unescaping, the pattern at lines 224-232):
  the matches come in as a sequence. The canonical-path search at lines 243-247 is the oracle `pathFor`.
- `urlparse`'s port validation and the `ValueError` it can raise on a malformed netloc.
- Unicode: `lower`/`upper` map ASCII letters only, and `\w`/`\b` in the IATA scan treat only ASCII letters, digits and `_` as word characters. White space is the full `str.isspace` set.
- The image and title read off the lounge page (lines 442-457) and `fetch_text`.
- The country and airport slugs are taken as given from the airport address (lines 298-300).
- `parse_priority_pass_airport_links`: only the predicate on line 187 is modelled, not the
  `urljoin`, set and sort.
- The world-airport CSV download and its columns, the group-by of names, the JSON and HTML map
  output, progress printing, and the `RuntimeError` on an empty scrape.
- Pandas `NaN`: missing values are `Option`, and `fillna` is an explicit choice.
- LoungeUrls.ToMyIdempotent: proved for input without query, fragment, params or control
  characters only. Outside that class it fails (`ToMyNotIdempotent`).
- LoungeUrls.NormalizeIdempotent: proved for input without query, fragment, params or control
  characters.
- LoungeUrls.NormalizeCardLink: proved for slug-shaped segments (non-empty, of lower-case letters,
  digits and hyphens) only.
- LoungeUrls.RepairRemovesSegment: stated only for addresses whose last path segment holds no `;`,
  because `urlunparse` would read what follows it as params.
- Liveness.FetchLoungeImage: states only the detail address it reports, not the image or title.
- Pipeline.ApplyResolvedUrls: its own contract states only the length; what each record becomes
  is stated by `ResolvedFromScrape`.
