/** What `parse_airport_page` reads off an airport page: the outlet items of its cards and of the
    payload embedded in it, merged without duplicates, and the airport's IATA code.

    HTML parsing and the regular-expression scan of the payload are not modelled: the cards come in
    as (href, link text) pairs, the payload as the sequence of its pattern matches, and the search
    for a canonical path as an oracle `pathFor` from a slug to what it found. */
module Extraction {
  import opened Text
  import opened Wrappers
  import opened Urls
  import opened LoungeUrls
  import opened Collections

  /** The airport a page describes: its address, its slug and its country's slug (both taken from
      the address), its name and its title. */
  datatype Airport = Airport(url: string, slug: string, countrySlug: string, name: string, title: string)

  /** An outlet record: the airport it is on, then its type, name, canonical detail address, detail
      slug, and the IATA codes read off its code and off the page title. */
  datatype Item = Item(
    airportUrl: string,
    airportSlug: string,
    countrySlug: string,
    airportNamePp: string,
    airportTitle: string,
    experienceType: string,
    experienceName: string,
    experienceDetailUrl: string,
    experienceDetailSlug: string,
    iataFromCode: Option<string>,
    iataFromTitle: Option<string>)

  function NewItem(airport: Airport, titleIata: Option<string>, itemType: string, name: string,
                   detailUrl: string, slug: string, code: Option<string>): Item
  {
    Item(airport.url, airport.slug, airport.countrySlug, airport.name, airport.title,
         itemType, name, detailUrl, slug, code, titleIata)
  }

  /** The three outlet types the site lists. */
  predicate IsCategory(t: string) {
    t == "LOUNGE" || t == "DINING" || t == "RELAX"
  }

  predicate IsLoungeItem(it: Item) { it.experienceType == "LOUNGE" }

  predicate IsOtherItem(it: Item) { it.experienceType != "LOUNGE" }

  /** `re.match(r"([A-Z]{3})", s)`: the three capital letters `s` starts with, if it does. */
  function LeadingIata(s: string): (r: Option<string>)
    ensures r.Some? ==> IsIata(r.value) && StartsWith(s, r.value)
    ensures r.None? ==> !(|s| >= 3 && IsIata(s[..3]))
  {
    if |s| >= 3 && IsIata(s[..3]) then Some(s[..3]) else None
  }

  // ---------------------------------------------------------------------------------------------
  // extract_iata_candidates

  /** The `\b` assertion at position `i`: a word character on exactly one side of it. */
  predicate WordBoundary(u: string, i: int)
    requires 0 <= i <= |u|
  {
    (i > 0 && IsWordChar(u[i - 1])) != (i < |u| && IsWordChar(u[i]))
  }

  /** `\b([A-Z]{3})\b` matches at position `i`. */
  predicate IataTokenAt(u: string, i: nat) {
    i + 3 <= |u| && WordBoundary(u, i) && IsIata(u[i..i + 3]) && WordBoundary(u, i + 3)
  }

  /** The scan `re.findall(r"\b([A-Z]{3})\b", u)` makes from position `i`: left to right, resuming
      after each match. */
  function TokensFrom(u: string, i: nat): (ts: seq<string>)
    requires i <= |u|
    ensures forall k | 0 <= k < |ts| :: IsIata(ts[k])
    decreases |u| - i
  {
    if i + 3 > |u| then []
    else if IataTokenAt(u, i) then [u[i..i + 3]] + TokensFrom(u, i + 3)
    else TokensFrom(u, i + 1)
  }

  /** `re.findall(r"\b([A-Z]{3})\b", u)`. */
  function IataTokens(u: string): seq<string> {
    TokensFrom(u, 0)
  }

  /** A candidate is its own key. */
  function Code(c: string): string { c }

  /** What `extract_iata_candidates` returns: the tokens of the upper-cased text, first occurrence
      of each. */
  function IataCandidates(text: string): seq<string> {
    Dedup(IataTokens(Upper(text)), Code)
  }

  /** `extract_iata_candidates`. */
  method ExtractIataCandidates(text: string) returns (ordered: seq<string>)
    ensures ordered == IataCandidates(text)
  {
    if text == "" {
      return [];
    }
    var candidates := IataTokens(Upper(text));
    var seen: set<string> := {};
    ordered := [];
    for i := 0 to |candidates|
      invariant ordered == Dedup(candidates[..i], Code)
      invariant seen == KeysOf(ordered, Code)
    {
      var code := candidates[i];
      DedupStep(candidates, Code, i);
      if code !in seen {
        KeysOfAppend(ordered, Code, code);
        seen := seen + {code};
        ordered := ordered + [code];
      }
    }
    assert candidates[..|candidates|] == candidates;
  }

  /** Every token the scan reports is a match at some position from `i` on. */
  lemma {:induction false} TokensSound(u: string, i: nat, k: nat)
    requires i <= |u| && k < |TokensFrom(u, i)|
    ensures exists j | i <= j :: IataTokenAt(u, j) && TokensFrom(u, i)[k] == u[j..j + 3]
    decreases |u| - i
  {
    if IataTokenAt(u, i) {
      if k > 0 {
        TokensSound(u, i + 3, k - 1);
      }
    } else {
      TokensSound(u, i + 1, k);
    }
  }

  /** ... and the scan misses no match: resuming after a match skips only positions inside it,
      where `\b` cannot hold. */
  lemma {:induction false} TokensComplete(u: string, i: nat, j: nat)
    requires i <= j && IataTokenAt(u, j)
    ensures u[j..j + 3] in TokensFrom(u, i)
    decreases |u| - i
  {
    if i < j {
      if IataTokenAt(u, i) {
        InsideToken(u, i);
        TokensComplete(u, i + 3, j);
      } else {
        TokensComplete(u, i + 1, j);
      }
    }
  }

  /** No `\b` holds strictly inside a match. */
  lemma InsideToken(u: string, i: nat)
    requires IataTokenAt(u, i)
    ensures !WordBoundary(u, i + 1) && !WordBoundary(u, i + 2)
  {
    var t := u[i..i + 3];
    assert t[0] == u[i] && t[1] == u[i + 1] && t[2] == u[i + 2];
  }

  /** The candidates of a text are exactly the distinct three-letter tokens of its upper-cased
      form: each is one, and each token is among them. */
  lemma CandidatesAreTokens(text: string, k: nat)
    requires k < |IataCandidates(text)|
    ensures IsIata(IataCandidates(text)[k])
    ensures exists j: nat :: IataTokenAt(Upper(text), j) && IataCandidates(text)[k] == Upper(text)[j..j + 3]
  {
    var ts := IataTokens(Upper(text));
    DedupFromInput(ts, Code);
    var c := IataCandidates(text)[k];
    assert c in ts;
    var m :| 0 <= m < |ts| && ts[m] == c;
    TokensSound(Upper(text), 0, m);
  }

  lemma TokenIsCandidate(text: string, j: nat)
    requires IataTokenAt(Upper(text), j)
    ensures Upper(text)[j..j + 3] in IataCandidates(text)
  {
    var ts := IataTokens(Upper(text));
    var c := Upper(text)[j..j + 3];
    TokensComplete(Upper(text), 0, j);
    var m :| 0 <= m < |ts| && ts[m] == c;
    KeysOfIn(ts, Code, c);
    DedupKeys(ts, Code);
    KeysOfIn(Dedup(ts, Code), Code, c);
  }

  /** No candidate is repeated, and they come in the order of their first occurrence. */
  lemma CandidatesDistinct(text: string)
    ensures forall i, j | 0 <= i < j < |IataCandidates(text)| :: IataCandidates(text)[i] != IataCandidates(text)[j]
    ensures IataCandidates(text) == FirstsOfKeys(IataTokens(Upper(text)), Code)
  {
    DedupDistinct(IataTokens(Upper(text)), Code);
    DedupIsFirsts(IataTokens(Upper(text)), Code);
  }

  // ---------------------------------------------------------------------------------------------
  // The title marker

  /** The end of the run of white space that starts at `i`. */
  function SpaceRunEnd(u: string, i: nat): (e: nat)
    requires i <= |u|
    ensures i <= e <= |u|
    decreases |u| - i
  {
    if i < |u| && IsSpace(u[i]) then SpaceRunEnd(u, i + 1) else i
  }

  /** `\b([A-Z]{3})\s+Lounges\b` matches at `i`: the greedy `\s+` takes the whole run of white
      space, and giving any of it back cannot help since "L" is not white space. */
  predicate TitleMarkerAt(u: string, i: nat) {
    && i + 3 <= |u| && WordBoundary(u, i) && IsIata(u[i..i + 3])
    && var e := SpaceRunEnd(u, i + 3);
       && e > i + 3 && e + 7 <= |u| && u[e..e + 7] == "Lounges" && WordBoundary(u, e + 7)
  }

  /** `re.search` for the marker from position `i`. */
  function TitleMarkerFrom(u: string, i: nat): Option<string>
    requires i <= |u|
    decreases |u| - i
  {
    if i + 3 > |u| then None
    else if TitleMarkerAt(u, i) then Some(u[i..i + 3])
    else TitleMarkerFrom(u, i + 1)
  }

  /** The IATA code `parse_airport_page` reads off a title such as "... SFO Lounges ...": it
      searches the upper-cased title. */
  function IataFromTitle(title: string): Option<string> {
    TitleMarkerFrom(Upper(title), 0)
  }

  /** The search runs on the upper-cased title for a marker spelt "Lounges", with lower-case
      letters, so it never matches: the title route gives no code for any title. */
  lemma TitleRouteDead(title: string)
    ensures IataFromTitle(title) == None
  {
    UpperHasNoLower(title);
    NoMarkerFrom(Upper(title), 0);
  }

  lemma UpperHasNoLower(s: string)
    ensures forall k | 0 <= k < |Upper(s)| :: !IsLowerLetter(Upper(s)[k])
  {
  }

  lemma {:induction false} NoMarkerFrom(u: string, i: nat)
    requires i <= |u|
    requires forall k | 0 <= k < |u| :: !IsLowerLetter(u[k])
    ensures TitleMarkerFrom(u, i) == None
    decreases |u| - i
  {
    if i + 3 <= |u| {
      NoLoungesWord(u, SpaceRunEnd(u, i + 3));
      NoMarkerFrom(u, i + 1);
    }
  }

  lemma NoLoungesWord(u: string, e: nat)
    requires forall k | 0 <= k < |u| :: !IsLowerLetter(u[k])
    ensures !(e + 7 <= |u| && u[e..e + 7] == "Lounges")
  {
    if e + 7 <= |u| {
      assert !IsLowerLetter(u[e + 1]);
      assert u[e..e + 7][1] != "Lounges"[1];
    }
  }

  // ---------------------------------------------------------------------------------------------
  // The card loop

  /** A card: the `href` of an anchor and its text, the anchor's strings joined by a space. */
  datatype Anchor = Anchor(href: string, text: string)

  /** The end of the first word of `s`. */
  function WordEnd(s: string): (i: nat)
    ensures i <= |s|
    ensures forall k | 0 <= k < i :: !IsSpace(s[k])
    ensures i < |s| ==> IsSpace(s[i])
  {
    if s == [] || IsSpace(s[0]) then 0 else 1 + WordEnd(s[1..])
  }

  /** `s.split(maxsplit=1)` for text that does not begin with white space: the first word, and
      the rest after the white space that follows it, when there is any. */
  function SplitFirstWord(s: string): (string, Option<string>) {
    var i := WordEnd(s);
    var rest := TrimLeft(s[i..]);
    (s[..i], if rest == "" then None else Some(rest))
  }

  /** `detail_url.rstrip("/").split("/")[-1]`: what follows the last slash. */
  function LastPiece(url: string): (piece: string)
    ensures '/' !in piece
  {
    var t := TrimRightChar(url, '/');
    t[LastIndexOf(t, '/') + 1..]
  }

  /** The item the card loop builds from a card whose href normalised to `detail`: cards with a
      blank href or text, with a first word that is not an outlet type, or with no detail address
      are skipped; the name is the rest of the text, or the type word itself when there is none. */
  function CardItem(airport: Airport, titleIata: Option<string>, a: Anchor, detail: Option<string>): Option<Item> {
    var href := Strip(a.href);
    var linkText := Strip(a.text);
    if href == "" || linkText == "" then None
    else
      var (word, rest) := SplitFirstWord(linkText);
      var itemType := Upper(word);
      if !IsCategory(itemType) then None
      else if detail.None? || detail.value == "" then None
      else
        var name := if rest.Some? then rest.value else word;
        var slug := LastPiece(detail.value);
        Some(NewItem(airport, titleIata, itemType, name, detail.value, slug, LeadingIata(Upper(BeforeFirst(slug, '-')))))
  }

  /** One turn of the card loop of `parse_airport_page`. */
  function AnchorItem(airport: Airport, titleIata: Option<string>, a: Anchor): Option<Item> {
    CardItem(airport, titleIata, a, NormalizeLoungeDetailUrl(airport.countrySlug, a.href))
  }

  /** The items the card loop builds, in card order. */
  function AnchorItems(airport: Airport, titleIata: Option<string>, anchors: seq<Anchor>): seq<Item>
    decreases |anchors|
  {
    if anchors == [] then []
    else
      var init := AnchorItems(airport, titleIata, anchors[..|anchors| - 1]);
      match AnchorItem(airport, titleIata, anchors[|anchors| - 1])
      case None => init
      case Some(it) => init + [it]
  }

  /** The card loop, which files each item under the lounges or under the other outlets. */
  method CollectCardItems(airport: Airport, titleIata: Option<string>, anchors: seq<Anchor>)
    returns (loungeItems: seq<Item>, nonLoungeItems: seq<Item>)
    ensures loungeItems == Filter(AnchorItems(airport, titleIata, anchors), IsLoungeItem)
    ensures nonLoungeItems == Filter(AnchorItems(airport, titleIata, anchors), IsOtherItem)
  {
    loungeItems, nonLoungeItems := [], [];
    for i := 0 to |anchors|
      invariant loungeItems == Filter(AnchorItems(airport, titleIata, anchors[..i]), IsLoungeItem)
      invariant nonLoungeItems == Filter(AnchorItems(airport, titleIata, anchors[..i]), IsOtherItem)
    {
      CardFilterStep(airport, titleIata, anchors, i, IsLoungeItem);
      CardFilterStep(airport, titleIata, anchors, i, IsOtherItem);
      var item := AnchorItem(airport, titleIata, anchors[i]);
      if item.Some? {
        if IsLoungeItem(item.value) {
          loungeItems := loungeItems + [item.value];
        } else {
          nonLoungeItems := nonLoungeItems + [item.value];
        }
      }
    }
    assert anchors[..|anchors|] == anchors;
  }

  /** Every item a card gives is filed exactly once: the two lists together hold the card items,
      each as often as the cards give it. */
  lemma CardListsPartition(airport: Airport, titleIata: Option<string>, anchors: seq<Anchor>)
    ensures var items := AnchorItems(airport, titleIata, anchors);
            multiset(Filter(items, IsLoungeItem)) + multiset(Filter(items, IsOtherItem)) == multiset(items)
  {
    FilterSplits(AnchorItems(airport, titleIata, anchors), IsLoungeItem, IsOtherItem);
  }

  /** One turn of the card loop files the card's item, if any, under the list whose test it passes. */
  lemma CardFilterStep(airport: Airport, titleIata: Option<string>, anchors: seq<Anchor>, i: nat, p: Item -> bool)
    requires i < |anchors|
    ensures var item := AnchorItem(airport, titleIata, anchors[i]);
            Filter(AnchorItems(airport, titleIata, anchors[..i + 1]), p)
            == Filter(AnchorItems(airport, titleIata, anchors[..i]), p) + (if item.Some? && p(item.value) then [item.value] else [])
  {
    AnchorStep(airport, titleIata, anchors, i);
    FilterGrow(AnchorItems(airport, titleIata, anchors[..i]), AnchorItems(airport, titleIata, anchors[..i + 1]),
               AnchorItem(airport, titleIata, anchors[i]), p);
  }

  lemma AnchorStep(airport: Airport, titleIata: Option<string>, anchors: seq<Anchor>, i: nat)
    requires i < |anchors|
    ensures var item := AnchorItem(airport, titleIata, anchors[i]);
            AnchorItems(airport, titleIata, anchors[..i + 1])
            == AnchorItems(airport, titleIata, anchors[..i]) + (if item.Some? then [item.value] else [])
  {
    assert anchors[..i + 1][..i] == anchors[..i];
  }

  /** A card gives an item exactly when its href and text are not blank, its first word names an
      outlet type and its href normalises to a detail address. */
  lemma AnchorItemWhen(airport: Airport, titleIata: Option<string>, a: Anchor)
    ensures AnchorItem(airport, titleIata, a).Some?
        <==> && Strip(a.href) != "" && Strip(a.text) != ""
             && IsCategory(Upper(SplitFirstWord(Strip(a.text)).0))
             && NormalizeLoungeDetailUrl(airport.countrySlug, a.href).Some?
  {
    var d := NormalizeLoungeDetailUrl(airport.countrySlug, a.href);
    assert d.Some? ==> d.value != "" by {
      if d.Some? {
        assert StartsWith(d.value, MyPpBase + "/");
      }
    }
  }

  /** The item a card gives is an outlet of the page's airport; its type is the upper-cased first
      word of the card's text, one of the three types; its name is the rest of the text, or that
      first word when there is no rest, and never empty; its address is the canonical detail address
      its href normalises to, its slug the last piece of that address, and its code the three
      capital letters the slug's first part starts with. */
  lemma AnchorItemFacts(airport: Airport, titleIata: Option<string>, a: Anchor)
    requires AnchorItem(airport, titleIata, a).Some?
    ensures var it := AnchorItem(airport, titleIata, a).value;
            var (word, rest) := SplitFirstWord(Strip(a.text));
            && it.airportUrl == airport.url && it.airportSlug == airport.slug
            && it.countrySlug == airport.countrySlug && it.airportNamePp == airport.name
            && it.airportTitle == airport.title && it.iataFromTitle == titleIata
            && it.experienceType == Upper(word) && IsCategory(it.experienceType)
            && it.experienceName == (if rest.Some? then rest.value else word) && it.experienceName != ""
            && Some(it.experienceDetailUrl) == NormalizeLoungeDetailUrl(airport.countrySlug, a.href)
            && IsLoungeDetailUrl(it.experienceDetailUrl)
            && it.experienceDetailSlug == LastPiece(it.experienceDetailUrl)
            && it.iataFromCode == LeadingIata(Upper(BeforeFirst(it.experienceDetailSlug, '-')))
  {
    var linkText := Strip(a.text);
    var i := WordEnd(linkText);
    assert i > 0 by {
      assert !IsSpace(linkText[0]);
    }
    var rest := TrimLeft(linkText[i..]);
    assert rest != "" ==> SplitFirstWord(linkText).1 == Some(rest);
  }

  /** A text after the last slash of an address is its last piece. */
  lemma LastPieceOf(p: string, s: string)
    requires s != "" && '/' !in s
    ensures LastPiece(p + "/" + s) == s
  {
    var t := p + "/" + s;
    assert t[|t| - 1] == s[|s| - 1] != '/';
    assert TrimRightChar(t, '/') == t;
    var j := LastIndexOf(t, '/');
    assert t[|p|] == '/';
    forall k | j < k < |t| ensures t[k] != '/' {
      assert t[j + 1..][k - j - 1] == t[k];
    }
    forall k | |p| < k < |t| ensures t[k] != '/' {
      assert t[k] == s[k - |p| - 1];
    }
    assert t[|p| + 1..] == s;
  }

  /** A card `<airport>/<slug>` of a country's page gives the item with the canonical detail
      address `/en-GB/lounges/<country>/<airport>/<slug>`, that slug back as its detail slug, and
      the code the slug's first part starts with. */
  lemma {:induction false} CardLinkItem(airport: Airport, titleIata: Option<string>, apt: string, slug: string, text: string)
    requires IsSlug(airport.countrySlug) && IsSlug(apt) && IsSlug(slug)
    requires AnchorItem(airport, titleIata, Anchor(apt + "/" + slug, text)).Some?
    ensures var it := AnchorItem(airport, titleIata, Anchor(apt + "/" + slug, text)).value;
            && it.experienceDetailUrl == MyPpBase + DetailPath(airport.countrySlug, apt, slug)
            && it.experienceDetailSlug == slug
            && it.iataFromCode == LeadingIata(Upper(BeforeFirst(slug, '-')))
  {
    var country := airport.countrySlug;
    NormalizeCardLink(country, apt, slug);
    DetailPathJoin(country, apt, slug);
    DetailLastPiece(country, apt, slug);
    CardItemSlug(airport, titleIata, Anchor(apt + "/" + slug, text), MyPpBase + DetailPath(country, apt, slug));
  }

  /** The item built from a card whose href normalised to `d` has `d` as its address and the
      last piece of `d` as its slug. */
  lemma CardItemSlug(airport: Airport, titleIata: Option<string>, a: Anchor, d: string)
    requires CardItem(airport, titleIata, a, Some(d)).Some?
    ensures var it := CardItem(airport, titleIata, a, Some(d)).value;
            && it.experienceDetailUrl == d && it.experienceDetailSlug == LastPiece(d)
            && it.iataFromCode == LeadingIata(Upper(BeforeFirst(LastPiece(d), '-')))
  {
  }

  /** The last piece of a canonical detail address is its slug. */
  lemma DetailLastPiece(country: string, apt: string, slug: string)
    requires IsSlug(slug)
    ensures LastPiece(MyPpBase + DetailPath(country, apt, slug)) == slug
  {
    SlugPlain(slug);
    LastPieceOf(MyPpBase + "/en-GB/lounges/" + country + "/" + apt, slug);
    assert MyPpBase + DetailPath(country, apt, slug) == (MyPpBase + "/en-GB/lounges/" + country + "/" + apt) + "/" + slug;
  }

  // ---------------------------------------------------------------------------------------------
  // extract_outlet_items_from_embedded_payload

  /** One match of the payload pattern: the optional outlet code and the name, category and slug
      it captured (the category in whatever letter case the page used). */
  datatype PayloadMatch = PayloadMatch(code: Option<string>, name: string, category: string, slug: string)

  /** The address a payload record falls back to when the page holds no canonical path for it. */
  function FallbackPath(country: string, airport: string, slug: string): string {
    "/lounges/" + country + "/" + airport + "/" + slug
  }

  /** The code a payload record carries: the three capital letters its outlet code starts with,
      otherwise those its upper-cased slug starts with. */
  function PayloadCode(code: string, slug: string): (r: Option<string>)
    ensures r.Some? ==> IsIata(r.value)
    ensures LeadingIata(code).Some? ==> r == LeadingIata(code)
    ensures LeadingIata(code).None? ==> r == LeadingIata(Upper(slug))
  {
    var fromCode := if code != "" then LeadingIata(code) else None;
    if fromCode.Some? then fromCode else LeadingIata(Upper(slug))
  }

  /** The path a payload record's address is canonicalised from: the canonical path the search
      found, otherwise the fallback path. */
  function PayloadSource(airport: Airport, slug: string, found: Option<string>): string {
    if found.Some? then found.value else FallbackPath(airport.countrySlug, airport.slug, slug)
  }

  /** The outlet code of a match, stripped and upper-cased (empty when the match has none). */
  function MatchCode(m: PayloadMatch): string {
    Upper(Strip(if m.code.Some? then m.code.value else ""))
  }

  /** The record the payload scan builds from match `m`, given its canonical `detail` address:
      matches without a category, name or slug are skipped, and nothing else is. */
  function PayloadItem(airport: Airport, titleIata: Option<string>, m: PayloadMatch, detail: string): Option<Item> {
    var category := Upper(m.category);
    var name := Strip(m.name);
    var slug := Strip(m.slug);
    var code := MatchCode(m);
    if category == "" || name == "" || slug == "" then None
    else Some(NewItem(airport, titleIata, category, name, detail, slug, PayloadCode(code, slug)))
  }

  /** One turn of the payload loop: the canonical path searched for is the one ending in the
      match's slug. */
  function EmbeddedItem(airport: Airport, titleIata: Option<string>, m: PayloadMatch, pathFor: string -> Option<string>): Option<Item> {
    var slug := Strip(m.slug);
    PayloadItem(airport, titleIata, m, ToMyPriorityPassUrl(PayloadSource(airport, slug, pathFor(slug))))
  }

  /** The records the payload loop builds, in match order. */
  function EmbeddedItems(airport: Airport, titleIata: Option<string>, matches: seq<PayloadMatch>, pathFor: string -> Option<string>): seq<Item>
    decreases |matches|
  {
    if matches == [] then []
    else
      var init := EmbeddedItems(airport, titleIata, matches[..|matches| - 1], pathFor);
      match EmbeddedItem(airport, titleIata, matches[|matches| - 1], pathFor)
      case None => init
      case Some(it) => init + [it]
  }

  /** `extract_outlet_items_from_embedded_payload`, over the matches of its pattern. */
  method ExtractOutletItems(airport: Airport, titleIata: Option<string>, matches: seq<PayloadMatch>, pathFor: string -> Option<string>)
    returns (records: seq<Item>)
    ensures records == EmbeddedItems(airport, titleIata, matches, pathFor)
  {
    records := [];
    for i := 0 to |matches|
      invariant records == EmbeddedItems(airport, titleIata, matches[..i], pathFor)
    {
      EmbeddedStep(airport, titleIata, matches, pathFor, i);
      var item := EmbeddedItem(airport, titleIata, matches[i], pathFor);
      if item.Some? {
        records := records + [item.value];
      }
    }
    assert matches[..|matches|] == matches;
  }

  lemma EmbeddedStep(airport: Airport, titleIata: Option<string>, matches: seq<PayloadMatch>, pathFor: string -> Option<string>, i: nat)
    requires i < |matches|
    ensures var item := EmbeddedItem(airport, titleIata, matches[i], pathFor);
            EmbeddedItems(airport, titleIata, matches[..i + 1], pathFor)
            == EmbeddedItems(airport, titleIata, matches[..i], pathFor) + (if item.Some? then [item.value] else [])
  {
    assert matches[..i + 1][..i] == matches[..i];
  }

  /** A match gives a record exactly when its category, name and slug are not blank: unlike a card,
      a payload record is kept without asking whether its address is a detail page. */
  lemma PayloadItemWhen(airport: Airport, titleIata: Option<string>, m: PayloadMatch, detail: string)
    ensures PayloadItem(airport, titleIata, m, detail).Some?
        <==> Upper(m.category) != "" && Strip(m.name) != "" && Strip(m.slug) != ""
  {
  }

  /** The record a match gives carries the upper-cased category, the stripped name and slug, its
      canonical address and the code read off its outlet code or slug. */
  lemma PayloadItemFacts(airport: Airport, titleIata: Option<string>, m: PayloadMatch, detail: string)
    requires PayloadItem(airport, titleIata, m, detail).Some?
    ensures var it := PayloadItem(airport, titleIata, m, detail).value;
            && it.airportUrl == airport.url && it.airportSlug == airport.slug
            && it.countrySlug == airport.countrySlug && it.airportNamePp == airport.name
            && it.airportTitle == airport.title && it.iataFromTitle == titleIata
            && it.experienceType == Upper(m.category) && it.experienceName == Strip(m.name)
            && it.experienceDetailSlug == Strip(m.slug) && it.experienceDetailUrl == detail
            && it.iataFromCode == PayloadCode(MatchCode(m), Strip(m.slug))
            && (it.iataFromCode.Some? ==> IsIata(it.iataFromCode.value))
  {
  }

  /** With no canonical path on the page, a record of an airport whose country, airport and
      outlet slugs are proper slugs falls back to the canonical detail address under them. */
  lemma {:induction false} FallbackDetail(country: string, airport: string, slug: string)
    requires IsSlug(country) && IsSlug(airport) && IsSlug(slug)
    ensures ToMyPriorityPassUrl(FallbackPath(country, airport, slug)) == MyPpBase + DetailPath(country, airport, slug)
    ensures IsLoungeDetailUrl(ToMyPriorityPassUrl(FallbackPath(country, airport, slug)))
  {
    CardLinkFacts(country, airport, slug);
    CardPathRooted(country, airport, slug);
    assert FallbackPath(country, airport, slug) == CardPath(country, airport + "/" + slug) by {
      CardHref(airport, slug);
    }
    var ps := ["lounges", country, airport, slug];
    ToMyRooted(ps);
    ToMyRootedDetail(ps);
    DetailPathJoin(country, airport, slug);
  }

  // ---------------------------------------------------------------------------------------------
  // dedupe

  /** Items count as the same outlet when they have the same type and detail slug. */
  function ItemKey(it: Item): (string, string) {
    (it.experienceType, it.experienceDetailSlug)
  }

  /** `dedupe`. */
  method Dedupe(items: seq<Item>) returns (merged: seq<Item>)
    ensures merged == Dedup(items, ItemKey)
  {
    var seen: set<(string, string)> := {};
    merged := [];
    for i := 0 to |items|
      invariant merged == Dedup(items[..i], ItemKey)
      invariant seen == KeysOf(merged, ItemKey)
    {
      var it := items[i];
      var key := (it.experienceType, it.experienceDetailSlug);
      DedupStep(items, ItemKey, i);
      if key !in seen {
        KeysOfAppend(merged, ItemKey, it);
        seen := seen + {key};
        merged := merged + [it];
      }
    }
    assert items[..|items|] == items;
  }

  // ---------------------------------------------------------------------------------------------
  // The airport's IATA code

  /** The codes of the lounges, in order, skipping lounges without one. */
  function LoungeCodes(lounges: seq<Item>): seq<string>
    decreases |lounges|
  {
    if lounges == [] then []
    else
      var it := lounges[|lounges| - 1];
      LoungeCodes(lounges[..|lounges| - 1])
        + (if it.iataFromCode.Some? && it.iataFromCode.value != "" then [it.iataFromCode.value] else [])
  }

  /** The candidates for the airport's code, best first: the lounges' codes, the title's marked
      code, then the title's bare tokens. */
  function IataCandidateList(lounges: seq<Item>, titleIata: Option<string>, titleTokens: seq<string>): seq<string> {
    LoungeCodes(lounges) + MarkedCode(titleIata) + titleTokens
  }

  /** The title's marked code, when there is one. */
  function MarkedCode(titleIata: Option<string>): seq<string> {
    if titleIata.Some? && titleIata.value != "" then [titleIata.value] else []
  }

  /** The first candidate that is three capital letters. */
  function FirstIata(cs: seq<string>): (r: Option<string>)
    ensures r.Some? ==> IsIata(r.value) && r.value in cs
    ensures r.None? <==> forall i | 0 <= i < |cs| :: !IsIata(cs[i])
  {
    if cs == [] then None
    else if IsIata(cs[0]) then Some(cs[0])
    else
      assert forall i | 1 <= i < |cs| :: cs[i] == cs[1..][i - 1];
      FirstIata(cs[1..])
  }

  /** The code chosen is the candidate at the first position that holds a code. */
  lemma {:induction false} FirstIataPosition(cs: seq<string>, i: nat)
    requires i < |cs| && IsIata(cs[i]) && forall j | 0 <= j < i :: !IsIata(cs[j])
    ensures FirstIata(cs) == Some(cs[i])
  {
    if i > 0 {
      FirstIataPosition(cs[1..], i - 1);
    }
  }

  /** Candidates after one that is a code are never reached; candidates before the first code are
      passed over. */
  lemma {:induction false} FirstIataConcat(xs: seq<string>, ys: seq<string>)
    ensures FirstIata(xs).Some? ==> FirstIata(xs + ys) == FirstIata(xs)
    ensures FirstIata(xs).None? ==> FirstIata(xs + ys) == FirstIata(ys)
  {
    if xs != [] {
      assert (xs + ys)[1..] == xs[1..] + ys;
      FirstIataConcat(xs[1..], ys);
    } else {
      assert xs + ys == ys;
    }
  }

  /** `parse_airport_page`'s choice of the airport's code. */
  method SelectAirportIata(lounges: seq<Item>, titleIata: Option<string>, title: string) returns (airportIata: Option<string>)
    ensures airportIata == FirstIata(IataCandidateList(lounges, titleIata, IataCandidates(title)))
  {
    var candidates := CollectLoungeCodes(lounges);
    if titleIata.Some? && titleIata.value != "" {
      candidates := candidates + [titleIata.value];
    }
    var fromTitle := ExtractIataCandidates(title);
    candidates := candidates + fromTitle;
    assert candidates == IataCandidateList(lounges, titleIata, IataCandidates(title));
    airportIata := FirstFullMatch(candidates);
  }

  /** The loop that lists the lounges' codes. */
  method CollectLoungeCodes(lounges: seq<Item>) returns (codes: seq<string>)
    ensures codes == LoungeCodes(lounges)
  {
    codes := [];
    for i := 0 to |lounges|
      invariant codes == LoungeCodes(lounges[..i])
    {
      assert lounges[..i + 1][..i] == lounges[..i];
      var it := lounges[i];
      if it.iataFromCode.Some? && it.iataFromCode.value != "" {
        codes := codes + [it.iataFromCode.value];
      }
    }
    assert lounges[..|lounges|] == lounges;
  }

  /** The loop that stops at the first candidate `re.fullmatch(r"[A-Z]{3}", c)` accepts. */
  method FirstFullMatch(candidates: seq<string>) returns (airportIata: Option<string>)
    ensures airportIata == FirstIata(candidates)
  {
    var i := 0;
    while i < |candidates|
      invariant i <= |candidates|
      invariant FirstIata(candidates) == FirstIata(candidates[i..])
    {
      if IsIata(candidates[i]) {
        return Some(candidates[i]);
      }
      assert candidates[i..][1..] == candidates[i + 1..];
      i := i + 1;
    }
    assert candidates[i..] == [];
    return None;
  }

  /** A lounge with a code decides the airport's code: the title is not consulted. */
  lemma LoungeCodesWin(lounges: seq<Item>, titleIata: Option<string>, titleTokens: seq<string>)
    requires FirstIata(LoungeCodes(lounges)).Some?
    ensures FirstIata(IataCandidateList(lounges, titleIata, titleTokens)) == FirstIata(LoungeCodes(lounges))
  {
    var marked := MarkedCode(titleIata);
    FirstIataConcat(LoungeCodes(lounges), marked + titleTokens);
    assert IataCandidateList(lounges, titleIata, titleTokens) == LoungeCodes(lounges) + (marked + titleTokens);
  }

  /** Otherwise, since the title route never gives a code, the airport's code is the title's first
      bare three-letter token, if it has one. */
  lemma TitleTokenFallback(lounges: seq<Item>, title: string)
    requires FirstIata(LoungeCodes(lounges)).None?
    ensures var cs := IataCandidates(title);
            FirstIata(IataCandidateList(lounges, IataFromTitle(title), cs)) == if cs == [] then None else Some(cs[0])
  {
    var cs := IataCandidates(title);
    TitleRouteDead(title);
    FirstIataConcat(LoungeCodes(lounges), cs);
    assert IataCandidateList(lounges, IataFromTitle(title), cs) == LoungeCodes(lounges) + cs;
    if cs != [] {
      CandidatesAreTokens(title, 0);
    }
  }

  // ---------------------------------------------------------------------------------------------
  // parse_airport_page

  /** What `parse_airport_page` returns, less the fields it copies from the airport. */
  datatype AirportPage = AirportPage(
    airport: Airport,
    airportIata: Option<string>,
    loungeCount: nat,
    nonLoungeCount: nat,
    allExperienceCount: nat,
    loungeItems: seq<Item>,
    nonLoungeItems: seq<Item>)

  /** The lounges of the page: the cards' lounges, then the payload's, without duplicates. */
  function PageLounges(airport: Airport, anchors: seq<Anchor>, matches: seq<PayloadMatch>, pathFor: string -> Option<string>): seq<Item> {
    var titleIata := IataFromTitle(airport.title);
    Dedup(Filter(AnchorItems(airport, titleIata, anchors), IsLoungeItem)
          + Filter(EmbeddedItems(airport, titleIata, matches, pathFor), IsLoungeItem), ItemKey)
  }

  /** The other outlets of the page, in the same way. */
  function PageOthers(airport: Airport, anchors: seq<Anchor>, matches: seq<PayloadMatch>, pathFor: string -> Option<string>): seq<Item> {
    var titleIata := IataFromTitle(airport.title);
    Dedup(Filter(AnchorItems(airport, titleIata, anchors), IsOtherItem)
          + Filter(EmbeddedItems(airport, titleIata, matches, pathFor), IsOtherItem), ItemKey)
  }

  /** The page `parse_airport_page` reports. */
  function PageOf(airport: Airport, anchors: seq<Anchor>, matches: seq<PayloadMatch>, pathFor: string -> Option<string>): AirportPage {
    var lounges := PageLounges(airport, anchors, matches, pathFor);
    var others := PageOthers(airport, anchors, matches, pathFor);
    var iata := FirstIata(IataCandidateList(lounges, IataFromTitle(airport.title), IataCandidates(airport.title)));
    AirportPage(airport, iata, |lounges|, |others|, |lounges| + |others|, lounges, others)
  }

  /** The merge loop that files the payload's records after the cards' items. */
  method FileRecords(loungeItems: seq<Item>, nonLoungeItems: seq<Item>, records: seq<Item>)
    returns (lounges: seq<Item>, others: seq<Item>)
    ensures lounges == loungeItems + Filter(records, IsLoungeItem)
    ensures others == nonLoungeItems + Filter(records, IsOtherItem)
  {
    lounges, others := loungeItems, nonLoungeItems;
    for i := 0 to |records|
      invariant lounges == loungeItems + Filter(records[..i], IsLoungeItem)
      invariant others == nonLoungeItems + Filter(records[..i], IsOtherItem)
    {
      assert records[..i + 1] == records[..i] + [records[i]];
      FilterAppend(records[..i], records[i], IsLoungeItem);
      FilterAppend(records[..i], records[i], IsOtherItem);
      if IsLoungeItem(records[i]) {
        lounges := lounges + [records[i]];
      } else {
        others := others + [records[i]];
      }
    }
    assert records[..|records|] == records;
  }

  /** `parse_airport_page`, from the cards and payload matches of the page. */
  method ParseAirportPage(airport: Airport, anchors: seq<Anchor>, matches: seq<PayloadMatch>, pathFor: string -> Option<string>)
    returns (page: AirportPage)
    ensures page == PageOf(airport, anchors, matches, pathFor)
  {
    var titleIata := IataFromTitle(airport.title);
    var cardLounges, cardOthers := CollectCardItems(airport, titleIata, anchors);
    var records := ExtractOutletItems(airport, titleIata, matches, pathFor);
    var lounges, others := FileRecords(cardLounges, cardOthers, records);
    lounges := Dedupe(lounges);
    others := Dedupe(others);
    var iata := SelectAirportIata(lounges, titleIata, airport.title);
    page := AirportPage(airport, iata, |lounges|, |others|, |lounges| + |others|, lounges, others);
  }

  /** The page's lounges are lounges and its other outlets are not, no two of either share a type
      and slug, and each list is in its own right free of duplicates. */
  lemma PageListsClean(airport: Airport, anchors: seq<Anchor>, matches: seq<PayloadMatch>, pathFor: string -> Option<string>)
    ensures var page := PageOf(airport, anchors, matches, pathFor);
            && (forall it | it in page.loungeItems :: IsLoungeItem(it))
            && (forall it | it in page.nonLoungeItems :: !IsLoungeItem(it))
            && Dedup(page.loungeItems, ItemKey) == page.loungeItems
            && Dedup(page.nonLoungeItems, ItemKey) == page.nonLoungeItems
  {
    var titleIata := IataFromTitle(airport.title);
    var cards := AnchorItems(airport, titleIata, anchors);
    var records := EmbeddedItems(airport, titleIata, matches, pathFor);
    var lounges := Filter(cards, IsLoungeItem) + Filter(records, IsLoungeItem);
    var others := Filter(cards, IsOtherItem) + Filter(records, IsOtherItem);
    FilterConcat(cards, records, IsLoungeItem);
    FilterConcat(cards, records, IsOtherItem);
    forall it | it in Dedup(lounges, ItemKey) ensures IsLoungeItem(it) {
      DedupFromInput(lounges, ItemKey);
      FilterIn(cards + records, IsLoungeItem, it);
    }
    forall it | it in Dedup(others, ItemKey) ensures !IsLoungeItem(it) {
      DedupFromInput(others, ItemKey);
      FilterIn(cards + records, IsOtherItem, it);
    }
    DedupIdempotent(lounges, ItemKey);
    DedupIdempotent(others, ItemKey);
  }

  /** A card wins over a payload record for the same outlet: the page's lounges start with the
      cards' lounges, each outlet once, and every lounge after them is a payload record of a type
      and slug no card has. */
  lemma CardsWinOverPayload(airport: Airport, anchors: seq<Anchor>, matches: seq<PayloadMatch>, pathFor: string -> Option<string>)
    ensures var titleIata := IataFromTitle(airport.title);
            var cards := Filter(AnchorItems(airport, titleIata, anchors), IsLoungeItem);
            var lounges := PageLounges(airport, anchors, matches, pathFor);
            && |Dedup(cards, ItemKey)| <= |lounges|
            && lounges[..|Dedup(cards, ItemKey)|] == Dedup(cards, ItemKey)
            && forall i | |Dedup(cards, ItemKey)| <= i < |lounges| ::
                 lounges[i] in EmbeddedItems(airport, titleIata, matches, pathFor)
                 && ItemKey(lounges[i]) !in KeysOf(cards, ItemKey)
  {
    var titleIata := IataFromTitle(airport.title);
    var cards := Filter(AnchorItems(airport, titleIata, anchors), IsLoungeItem);
    var payload := Filter(EmbeddedItems(airport, titleIata, matches, pathFor), IsLoungeItem);
    var lounges := Dedup(cards + payload, ItemKey);
    DedupExtends(cards, payload, ItemKey);
    DedupFromInput(cards + payload, ItemKey);
    forall i | |Dedup(cards, ItemKey)| <= i < |lounges|
      ensures lounges[i] in EmbeddedItems(airport, titleIata, matches, pathFor)
    {
      var it := lounges[i];
      assert it in cards + payload;
      KeysOfIn(cards, ItemKey, ItemKey(it));
      forall j | 0 <= j < |cards| ensures cards[j] != it {
        assert ItemKey(cards[j]) != ItemKey(it);
      }
      FilterIn(EmbeddedItems(airport, titleIata, matches, pathFor), IsLoungeItem, it);
    }
  }
}
