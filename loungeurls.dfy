/** The crawler's rules for lounge page addresses on my.prioritypass.com: the canonical form,
    the detail-page test, the card-link normaliser, the repair of a doubled airport segment and
    the rebuilding of a detail address from the page a request was redirected to.

    Proof layout: the lemmas that mention `UrlParse` only chain facts handed to them by lemma
    calls; the character-level reasoning sits in helper lemmas that do not mention it. */
module LoungeUrls {
  import opened Text
  import opened Wrappers
  import opened Urls

  const MyPpHost: string := "my.prioritypass.com"
  const MyPpBase: string := "https://my.prioritypass.com"
  const LangPrefix: string := "/en-GB"

  // ---------------------------------------------------------------------------------------------
  // to_my_prioritypass_url

  /** The path `to_my_prioritypass_url` keeps from the stripped input: the parsed path when the
      input names a host, otherwise all of the input. */
  function HostPath(raw: string): string {
    PickPath(UrlParse(raw), raw)
  }

  function PickPath(parsed: ParsedUrl, raw: string): string {
    if parsed.netloc != "" then parsed.path else raw
  }

  /** The path rooted, and a `/lounges/...` path moved under the language prefix. */
  function Anchor(path: string): (p: string)
    ensures p != "" && p[0] == '/'
    ensures !StartsWith(p, "/lounges/")
  {
    var rooted := if StartsWith(path, "/") then path else "/" + path;
    if StartsWith(rooted, "/lounges/") then
      assert (LangPrefix + rooted)[1] == 'e';
      LangPrefix + rooted
    else rooted
  }

  /** The path `to_my_prioritypass_url` puts under the canonical host. */
  function CanonicalPath(raw: string): (p: string)
    ensures p != "" && p[0] == '/'
    ensures !StartsWith(p, "/lounges/")
  {
    Anchor(HostPath(raw))
  }

  /** `to_my_prioritypass_url`: blank input gives the empty string; anything else is moved onto
      `https://my.prioritypass.com`, with its query and fragment dropped when it names a host. */
  function ToMyPriorityPassUrl(urlOrPath: string): (r: string)
    ensures r == "" <==> Strip(urlOrPath) == ""
    ensures r != "" ==> StartsWith(r, MyPpBase + "/")
  {
    var raw := Strip(urlOrPath);
    if raw == "" then raw
    else
      var p := CanonicalPath(raw);
      BaseJoin(p);
      MyPpBase + p
  }

  lemma HttpsScheme()
    ensures WellFormedScheme("https")
    ensures AllChars(MyPpHost, NetlocChar) && MyPpHost != ""
    ensures MyPpBase == "https" + "://" + MyPpHost
  {
    HttpsLower();
    HttpsChars();
    HostChars();
    BaseSplit();
  }

  lemma BaseSplit()
    ensures MyPpBase == "https" + "://" + MyPpHost && MyPpHost != ""
  {
  }

  lemma HttpsLower()
    ensures Lower("https") == "https"
  {
    assert Lower("https") == "https";
  }

  lemma HttpsChars()
    ensures AllChars("https", IsSchemeChar) && IsAsciiLetter("https"[0])
  {
    var s := "https";
    forall i | 0 <= i < |s| ensures IsSchemeChar(s[i]) {
      assert IsLowerLetter(s[i]);
    }
  }

  lemma HostChars()
    ensures AllChars(MyPpHost, NetlocChar)
  {
    var s := MyPpHost;
    forall i | 0 <= i < |s| ensures NetlocChar(s[i]) {
      assert IsLowerLetter(s[i]) || s[i] == '.';
    }
  }

  /** The canonical host followed by a rooted path. */
  lemma BaseJoin(p: string)
    requires p != "" && p[0] == '/'
    ensures MyPpBase + p != ""
    ensures StartsWith(MyPpBase + p, MyPpBase + "/")
    ensures StartsWith(MyPpBase + p, "https://") && !StartsWith(MyPpBase + p, "#")
    ensures !IsSpace(p[|p| - 1]) ==> Strip(MyPpBase + p) == MyPpBase + p
  {
    var s := MyPpBase + p;
    assert s[..|MyPpBase| + 1] == MyPpBase + "/";
    assert s[..8] == "https://";
    assert s[0] == 'h' && s[|s| - 1] == p[|p| - 1];
    if !IsSpace(p[|p| - 1]) {
      StripUnchanged(s);
    }
  }

  /** The canonical host followed by a rooted path parses back into scheme, host and path. */
  lemma ParseBase(p: string)
    requires p != "" && p[0] == '/'
    ensures UrlParse(MyPpBase + p) == ParsedUrl("https", MyPpHost, PathPart("https", RemoveUnsafe(p)))
  {
    HttpsScheme();
    ParseAbsolute("https", MyPpHost, p);
  }

  /** ... and keeps a plain path whole. */
  lemma ParsePlainBase(p: string)
    requires p != "" && p[0] == '/' && PlainText(p)
    ensures UrlParse(MyPpBase + p) == ParsedUrl("https", MyPpHost, p)
  {
    ParseBase(p);
    PlainSafe(p);
    RemoveUnsafeSafe(p);
    PathPartPlain("https", p);
  }

  /** Every non-blank result parses back with scheme `https`, host `my.prioritypass.com` and the
      canonical path, less the query, fragment and parameters that path may still hold. */
  lemma ToMyParsesBack(urlOrPath: string)
    requires Strip(urlOrPath) != ""
    ensures UrlParse(ToMyPriorityPassUrl(urlOrPath))
         == ParsedUrl("https", MyPpHost, PathPart("https", RemoveUnsafe(CanonicalPath(Strip(urlOrPath)))))
  {
    ParseBase(CanonicalPath(Strip(urlOrPath)));
  }

  lemma PlainSafe(s: string)
    requires PlainText(s)
    ensures AllChars(s, SafeChar)
  {
    forall i | 0 <= i < |s| ensures SafeChar(s[i]) {
      assert PlainChar(s[i]);
    }
  }

  lemma AnchorKeeps(p: string)
    requires p != "" && p[0] == '/' && !StartsWith(p, "/lounges/")
    ensures Anchor(p) == p
  {
    assert StartsWith(p, "/");
  }

  lemma AnchorLounges(p: string)
    requires StartsWith(p, "/lounges/")
    ensures Anchor(p) == LangPrefix + p
  {
    assert StartsWith(p, "/");
  }

  /** Anchoring a plain path gives a plain path that ends where it ends. */
  lemma AnchorPlain(path: string)
    requires PlainText(path) && (path != "" ==> !IsSpace(path[|path| - 1]))
    ensures PlainText(Anchor(path)) && !IsSpace(Anchor(path)[|Anchor(path)| - 1])
  {
    var rooted := if StartsWith(path, "/") then path else "/" + path;
    RootedPathPlain(path);
    if StartsWith(rooted, "/lounges/") {
      PrefixedPlain(rooted);
    }
  }

  /** Putting the language prefix in front of a plain path keeps it plain and keeps its end. */
  lemma PrefixedPlain(rooted: string)
    requires PlainText(rooted) && rooted != "" && !IsSpace(rooted[|rooted| - 1])
    ensures PlainText(LangPrefix + rooted) && !IsSpace((LangPrefix + rooted)[|LangPrefix + rooted| - 1])
  {
    ConcatChars(LangPrefix, rooted, PlainChar);
    assert (LangPrefix + rooted)[|LangPrefix + rooted| - 1] == rooted[|rooted| - 1];
  }

  /** Rooting a plain path gives a plain path that ends where it ends. */
  lemma RootedPathPlain(path: string)
    requires PlainText(path) && (path != "" ==> !IsSpace(path[|path| - 1]))
    ensures var rooted := if StartsWith(path, "/") then path else "/" + path;
            PlainText(rooted) && rooted != "" && !IsSpace(rooted[|rooted| - 1])
  {
    if !StartsWith(path, "/") {
      ConcatChars("/", path, PlainChar);
      if path != "" {
        assert ("/" + path)[|path|] == path[|path| - 1];
      }
    }
  }

  /** A final piece of a plain string that does not end in white space is the same. */
  lemma SuffixPlain(t: string, s: string)
    requires IsSuffix(t, s) && PlainText(s) && s != "" && !IsSpace(s[|s| - 1])
    ensures PlainText(t) && (t != "" ==> !IsSpace(t[|t| - 1]))
  {
    SuffixChars(t, s, PlainChar);
    if t != "" {
      assert t[|t| - 1] == s[|s| - 1];
    }
  }

  /** A canonical plain path is left alone by a second canonicalisation. */
  lemma {:induction false} CanonicalOfCanonical(p: string)
    requires PlainText(p) && p != "" && p[0] == '/' && !StartsWith(p, "/lounges/") && !IsSpace(p[|p| - 1])
    ensures ToMyPriorityPassUrl(MyPpBase + p) == MyPpBase + p
  {
    BaseJoin(p);
    ParsePlainBase(p);
    HttpsScheme();
    AnchorKeeps(p);
  }

  /** On plain input the canonical path is plain and ends where the input ends. */
  lemma {:induction false} CanonicalPathPlain(raw: string)
    requires PlainText(raw) && raw != "" && !IsSpace(raw[|raw| - 1])
    ensures PlainText(CanonicalPath(raw))
    ensures !IsSpace(CanonicalPath(raw)[|CanonicalPath(raw)| - 1])
  {
    HostPathPlain(raw);
    AnchorPlain(HostPath(raw));
  }

  lemma HostPathPlain(raw: string)
    requires PlainText(raw) && raw != "" && !IsSpace(raw[|raw| - 1])
    ensures PlainText(HostPath(raw)) && (HostPath(raw) != "" ==> !IsSpace(HostPath(raw)[|HostPath(raw)| - 1]))
  {
    ParsePlain(raw);
    PickPlain(raw, UrlParse(raw));
  }

  lemma PickPlain(raw: string, u: ParsedUrl)
    requires PlainText(raw) && raw != "" && !IsSpace(raw[|raw| - 1]) && IsSuffix(u.path, raw)
    ensures PlainText(PickPath(u, raw)) && (PickPath(u, raw) != "" ==> !IsSpace(PickPath(u, raw)[|PickPath(u, raw)| - 1]))
  {
    SuffixPlain(u.path, raw);
  }

  /** `to_my_prioritypass_url` is idempotent on plain input (no control character, `?`, `#` or `;`). */
  lemma {:induction false} ToMyIdempotent(urlOrPath: string)
    requires PlainText(urlOrPath)
    ensures ToMyPriorityPassUrl(ToMyPriorityPassUrl(urlOrPath)) == ToMyPriorityPassUrl(urlOrPath)
  {
    var raw := Strip(urlOrPath);
    if raw != "" {
      StripChars(urlOrPath, PlainChar);
      CanonicalPathPlain(raw);
      CanonicalOfCanonical(CanonicalPath(raw));
    } else {
      assert Strip("") == "";
    }
  }

  /** ... but not in general: a host-less input keeps its query in the path, and the second call,
      which now sees a host, drops it. */
  lemma {:induction false} ToMyNotIdempotent(ps: seq<string>, query: string)
    requires |ps| >= 2 && ps[0] == "lounges" && AllPlainSegments(ps)
    requires PlainText(query) && query != "" && !IsSpace(query[|query| - 1])
    ensures ToMyPriorityPassUrl(Rooted(ps) + "?" + query) == MyPpBase + Rooted(["en-GB"] + ps) + "?" + query
    ensures ToMyPriorityPassUrl(ToMyPriorityPassUrl(Rooted(ps) + "?" + query)) == MyPpBase + Rooted(["en-GB"] + ps)
  {
    var p := Rooted(ps);
    RootedFacts(ps);
    LangRooted(ps);
    ToMyQueryOnce(p, query);
    ToMyQueryTwice(p, query);
    QueryRegroup(p, query);
  }

  /** A host-less `/lounges/` path with a query: the query stays in the canonical path. */
  lemma {:induction false} ToMyQueryOnce(p: string, query: string)
    requires PlainText(p) && StartsWith(p, "/lounges/")
    requires PlainText(query) && query != "" && !IsSpace(query[|query| - 1])
    ensures ToMyPriorityPassUrl(p + "?" + query) == MyPpBase + LangPrefix + p + "?" + query
  {
    var raw := p + "?" + query;
    LoungesQuery(p, query);
    QuerySafe(p, query);
    ParseRooted(raw);
    assert HostPath(raw) == raw;
    AnchorLounges(raw);
    QueryRegroup(p, query);
  }

  /** The same address under the canonical host: now the query is dropped. */
  lemma {:induction false} ToMyQueryTwice(p: string, query: string)
    requires PlainText(p) && StartsWith(p, "/lounges/")
    requires PlainText(query) && query != "" && !IsSpace(query[|query| - 1])
    ensures ToMyPriorityPassUrl(MyPpBase + LangPrefix + p + "?" + query) == MyPpBase + LangPrefix + p
  {
    var q := LangPrefix + p;
    var once := q + "?" + query;
    LoungesQuery(p, query);
    ConcatChars(LangPrefix, p, PlainChar);
    QuerySafe(q, query);
    BaseJoin(once);
    ParseBase(once);
    HttpsScheme();
    assert HostPath(MyPpBase + once) == q;
    AnchorKeeps(q);
    QueryRegroup(p, query);
  }

  /** How the pieces of a canonical address with a query group. */
  lemma QueryRegroup(p: string, query: string)
    ensures MyPpBase + LangPrefix + p + "?" + query == MyPpBase + (LangPrefix + (p + "?" + query))
    ensures MyPpBase + LangPrefix + p + "?" + query == MyPpBase + ((LangPrefix + p) + "?" + query)
    ensures MyPpBase + LangPrefix + p == MyPpBase + (LangPrefix + p)
    ensures MyPpBase + LangPrefix + p + "?" + query == MyPpBase + (LangPrefix + p) + "?" + query
  {
  }

  /** The first characters of a `/lounges/` path with a query, with and without the language prefix. */
  lemma LoungesQuery(p: string, query: string)
    requires StartsWith(p, "/lounges/")
    ensures var raw := p + "?" + query;
            && raw[0] == '/' && raw[1] == 'l' && StartsWith(raw, "/lounges/")
    ensures p[0] == '/' && !IsSpace(p[0])
    ensures var q := LangPrefix + p;
            && q[0] == '/' && !IsSpace(q[0]) && !StartsWith(q, "/lounges/")
            && LangPrefix + p + "?" + query == q + "?" + query
  {
    var raw := p + "?" + query;
    assert p[..9] == "/lounges/";
    assert p[0] == '/' && p[1] == 'l';
    assert raw[..9] == p[..9];
    var q := LangPrefix + p;
    assert q[1] == 'e' && q[0] == '/';
  }

  /** A plain path followed by a plain query: safe characters, the path before the `?`. */
  lemma QuerySafe(p: string, query: string)
    requires PlainText(p) && PlainText(query) && p != "" && query != ""
    requires !IsSpace(p[0]) && !IsSpace(query[|query| - 1])
    ensures var s := p + "?" + query;
            && s[..|p|] == p && s != "" && !IsSpace(s[|s| - 1]) && Strip(s) == s && RemoveUnsafe(s) == s
            && PathPart("", s) == p && PathPart("https", s) == p
  {
    var s := p + "?" + query;
    assert s[..|p|] == p;
    assert s[0] == p[0] && s[|s| - 1] == query[|query| - 1];
    StripUnchanged(s);
    assert AllChars(s, SafeChar) by {
      forall i | 0 <= i < |s| ensures SafeChar(s[i]) {
        if i < |p| {
          assert s[i] == p[i] && PlainChar(p[i]);
        } else if i > |p| {
          assert s[i] == query[i - |p| - 1] && PlainChar(query[i - |p| - 1]);
        }
      }
    }
    RemoveUnsafeSafe(s);
    PathPartQuery("", p, query);
    PathPartQuery("https", p, query);
  }

  /** A query after a plain path is cut off by `urlparse`. */
  lemma {:induction false} PathPartQuery(scheme: string, p: string, q: string)
    requires PlainText(p) && PlainText(q)
    ensures PathPart(scheme, p + "?" + q) == p
  {
    var s := p + "?" + q;
    Excluded(p, PlainChar, '#');
    Excluded(q, PlainChar, '#');
    Excluded(p, PlainChar, '?');
    assert '#' !in s by {
      forall i | 0 <= i < |s| ensures s[i] != '#' {
        if i < |p| { assert s[i] == p[i]; } else if i > |p| { assert s[i] == q[i - |p| - 1]; }
      }
    }
    BeforeFirstAbsent(s, '#');
    assert s[..|p|] == p;
    IndexOfIs(s, '?', |p|);
    PathPartPlain(scheme, p);
  }

  // ---------------------------------------------------------------------------------------------
  // is_lounge_detail_url

  /** The segment shape of a lounge detail page: `en-GB/lounges/<country>/<airport>/<slug>`, the
      language compared without regard to case, or `lounges/<country>/<airport>/<slug>`; longer
      paths count too. */
  predicate IsDetailPath(parts: seq<string>) {
    || (|parts| >= 5 && Lower(parts[0]) == "en-gb" && parts[1] == "lounges")
    || (|parts| >= 4 && parts[0] == "lounges")
  }

  /** `is_lounge_detail_url`. */
  predicate IsLoungeDetailUrl(url: string) {
    url != "" && IsDetailPath(Segments(UrlParse(url).path))
  }

  predicate AllPlainSegments(ps: seq<string>) {
    forall i | 0 <= i < |ps| :: PlainSegment(ps[i])
  }

  lemma LowerEnGb()
    ensures Lower("en-GB") == "en-gb"
    ensures Lower("EN-GB") == "en-gb"
    ensures Lower("lounges") != "en-gb"
  {
    assert Lower("en-GB")[3] == 'g' && Lower("en-GB")[4] == 'b';
    assert Lower("EN-GB")[0] == 'e' && Lower("EN-GB")[1] == 'n';
  }

  /** The rooted path of plain segments is plain, has its first segment right after the root and
      ends with a character that is not white space. */
  lemma {:induction false} RootedPlain(ps: seq<string>)
    requires AllPlainSegments(ps)
    ensures PlainText(Rooted(ps))
    ensures Rooted(ps)[0] == '/'
    ensures ps != [] ==> Rooted(ps)[1] == ps[0][0] && !IsSpace(Rooted(ps)[|Rooted(ps)| - 1])
    ensures forall q | q in ps :: q != "" && '/' !in q
  {
    forall q | q in ps ensures AllChars(q, PlainChar) && q != "" && '/' !in q {
      var i :| 0 <= i < |ps| && ps[i] == q;
      assert PlainSegment(ps[i]);
    }
    JoinChars(ps, PlainChar);
    ConcatChars("/", JoinWithSlash(ps), PlainChar);
    if ps != [] {
      JoinEnds(ps);
      assert PlainSegment(ps[|ps| - 1]);
    }
  }

  /** What a rooted path of plain segments offers `urlparse` and `strip()`. */
  lemma RootedFacts(ps: seq<string>)
    requires ps != [] && AllPlainSegments(ps)
    ensures var p := Rooted(ps);
            && p != "" && p[0] == '/' && p[1] != '/' && SafeChar(p[1])
            && Strip(p) == p && PlainText(p) && !IsSpace(p[|p| - 1])
            && AllChars(p, SafeChar) && RemoveUnsafe(p) == p
            && PathPart("", p) == p && PathPart("https", p) == p
            && Segments(p) == ps
            && (StartsWith(p, "/lounges/") <==> |ps| >= 2 && ps[0] == "lounges")
  {
    RootedHead(ps);
    PlainPathFacts(Rooted(ps));
    SegmentsOfRooted(ps);
    RootedLounges(ps);
  }

  lemma RootedHead(ps: seq<string>)
    requires ps != [] && AllPlainSegments(ps)
    ensures var p := Rooted(ps);
            && p != "" && p[0] == '/' && p[1] != '/' && SafeChar(p[1])
            && PlainText(p) && !IsSpace(p[|p| - 1])
  {
    RootedPlain(ps);
    assert PlainSegment(ps[0]);
    assert ps[0][0] != '/' by { assert ps[0][0] in ps[0]; }
    assert PlainChar(Rooted(ps)[1]);
  }

  /** A plain path that does not end in white space is left alone by `strip()` and `urlparse`. */
  lemma PlainPathFacts(p: string)
    requires p != "" && PlainText(p) && !IsSpace(p[0]) && !IsSpace(p[|p| - 1])
    ensures Strip(p) == p && AllChars(p, SafeChar) && RemoveUnsafe(p) == p
    ensures PathPart("", p) == p && PathPart("https", p) == p
  {
    StripUnchanged(p);
    PlainSafe(p);
    RemoveUnsafeSafe(p);
    PathPartPlain("", p);
    PathPartPlain("https", p);
  }

  /** The first slash of a joined path closes its first segment. */
  lemma JoinFirstSlash(ps: seq<string>)
    requires ps != [] && forall q | q in ps :: '/' !in q
    ensures IndexOf(JoinWithSlash(ps), '/') == (if |ps| >= 2 then |ps[0]| else -1)
    ensures JoinWithSlash(ps)[..|ps[0]|] == ps[0]
  {
    assert ps[0] in ps;
    var j := JoinWithSlash(ps);
    if |ps| >= 2 {
      assert j == ps[0] + "/" + JoinWithSlash(ps[1..]);
      assert j[..|ps[0]|] == ps[0];
      IndexOfIs(j, '/', |ps[0]|);
    }
  }

  /** A rooted path of plain segments starts with `/lounges/` exactly when its first segment is
      `lounges` and another segment follows. */
  lemma {:induction false} RootedLounges(ps: seq<string>)
    requires ps != [] && AllPlainSegments(ps)
    ensures StartsWith(Rooted(ps), "/lounges/") <==> |ps| >= 2 && ps[0] == "lounges"
  {
    RootedPlain(ps);
    var j := JoinWithSlash(ps);
    JoinFirstSlash(ps);
    if StartsWith(Rooted(ps), "/lounges/") {
      LoungesHead(j);
      IndexOfIs(j, '/', 7);
    }
    if |ps| >= 2 && ps[0] == "lounges" {
      JoinCons("lounges", ps[1..]);
      assert [ps[0]] + ps[1..] == ps;
      LoungesHeadBack(JoinWithSlash(ps[1..]));
    }
  }

  lemma LoungesHead(j: string)
    requires StartsWith("/" + j, "/lounges/")
    ensures |j| >= 8 && j[..7] == "lounges" && j[7] == '/'
  {
    forall k | 0 <= k < 8 ensures j[k] == "lounges/"[k] {
      assert ("/" + j)[k + 1] == j[k];
      assert ("/" + j)[..9][k + 1] == "/lounges/"[k + 1];
    }
  }

  lemma LoungesHeadBack(t: string)
    ensures StartsWith("/" + ("lounges" + "/" + t), "/lounges/")
  {
    assert ("/" + ("lounges" + "/" + t))[..9] == "/lounges/";
  }

  /** Putting `en-GB` in front of the segments puts the language prefix in front of the path. */
  lemma LangRooted(ps: seq<string>)
    requires ps != []
    ensures Rooted(["en-GB"] + ps) == LangPrefix + Rooted(ps)
  {
    assert (["en-GB"] + ps)[1..] == ps;
  }

  /** `en-GB` in front of plain segments keeps them plain, and keeps the detail shape of a path
      that starts with `lounges`. */
  lemma PlainLang(ps: seq<string>)
    requires AllPlainSegments(ps)
    ensures AllPlainSegments(["en-GB"] + ps)
    ensures |ps| >= 2 && ps[0] == "lounges" ==> (IsDetailPath(["en-GB"] + ps) <==> IsDetailPath(ps))
  {
    var qs := ["en-GB"] + ps;
    assert PlainSegment("en-GB");
    forall i | 0 <= i < |qs| ensures PlainSegment(qs[i]) {
      if i > 0 { assert qs[i] == ps[i - 1]; }
    }
    LowerEnGb();
  }

  /** A canonical address made of plain segments is a detail page exactly when its segments
      have the detail shape. */
  lemma {:induction false} CanonicalDetail(ps: seq<string>)
    requires AllPlainSegments(ps)
    ensures IsLoungeDetailUrl(MyPpBase + Rooted(ps)) <==> IsDetailPath(ps)
    ensures UrlParse(MyPpBase + Rooted(ps)).path == Rooted(ps)
  {
    RootedPlain(ps);
    ParsePlainBase(Rooted(ps));
    SegmentsOfRooted(ps);
    BaseJoin(Rooted(ps));
  }

  /** Canonicalising the rooted path of plain segments: the host is added, and `lounges/...`
      gains the `en-GB` segment in front. */
  lemma {:induction false} ToMyRooted(ps: seq<string>)
    requires ps != [] && AllPlainSegments(ps)
    ensures ToMyPriorityPassUrl(Rooted(ps))
         == MyPpBase + (if |ps| >= 2 && ps[0] == "lounges" then Rooted(["en-GB"] + ps) else Rooted(ps))
  {
    var p := Rooted(ps);
    RootedFacts(ps);
    ParseRooted(p);
    LangRooted(ps);
    if |ps| >= 2 && ps[0] == "lounges" {
      AnchorLounges(p);
    } else {
      AnchorKeeps(p);
    }
  }

  /** ... and it keeps the detail-page classification. */
  lemma {:induction false} ToMyRootedDetail(ps: seq<string>)
    requires ps != [] && AllPlainSegments(ps)
    ensures IsLoungeDetailUrl(ToMyPriorityPassUrl(Rooted(ps))) <==> IsDetailPath(ps)
  {
    ToMyRooted(ps);
    PlainLang(ps);
    if |ps| >= 2 && ps[0] == "lounges" {
      CanonicalDetail(["en-GB"] + ps);
    } else {
      CanonicalDetail(ps);
    }
  }

  /** A rooted path of plain segments is a detail page exactly when its segments have the shape. */
  lemma {:induction false} RootedDetail(ps: seq<string>)
    requires ps != [] && AllPlainSegments(ps)
    ensures IsLoungeDetailUrl(Rooted(ps)) <==> IsDetailPath(ps)
  {
    RootedFacts(ps);
    ParseRooted(Rooted(ps));
  }

  // ---------------------------------------------------------------------------------------------
  // normalize_lounge_detail_url

  function KeepIfDetail(candidate: string): (r: Option<string>)
    ensures r.Some? ==> r.value == candidate && IsLoungeDetailUrl(candidate)
  {
    if IsLoungeDetailUrl(candidate) then Some(candidate) else None
  }

  /** An absolute (`http://`, `https://`) or rooted href, which is canonicalised as it stands. */
  predicate IsAbsoluteOrRooted(h: string) {
    StartsWith(h, "http://") || StartsWith(h, "https://") || StartsWith(h, "/")
  }

  /** The path a relative card link `<airport>/<slug>` is read under. */
  function CardPath(countrySlug: string, h: string): string {
    "/lounges/" + countrySlug + "/" + TrimLeftChar(h, '/')
  }

  /** `normalize_lounge_detail_url`: the canonical detail address an anchor's href points to, if any.
      A relative card link `<airport>/<slug>` is read under `/lounges/<country>/`. */
  function NormalizeLoungeDetailUrl(countrySlug: string, href: string): (r: Option<string>)
    ensures r.Some? ==> IsLoungeDetailUrl(r.value) && StartsWith(r.value, MyPpBase + "/")
    ensures Strip(href) == "" || StartsWith(Strip(href), "#") ==> r == None
    ensures countrySlug == "" && !IsAbsoluteOrRooted(Strip(href)) ==> r == None
  {
    if href == "" then None
    else
      var h := Strip(href);
      if h == "" || StartsWith(h, "#") then None
      else if IsAbsoluteOrRooted(h) then KeepIfDetail(ToMyPriorityPassUrl(h))
      else if countrySlug == "" then None
      else KeepIfDetail(ToMyPriorityPassUrl(CardPath(countrySlug, h)))
  }

  predicate SlugChar(c: char) { IsLowerLetter(c) || IsDigit(c) || c == '-' }

  /** A slug as the site writes them: lower-case letters, digits and hyphens. */
  predicate IsSlug(s: string) {
    s != "" && forall i | 0 <= i < |s| :: SlugChar(s[i])
  }

  lemma SlugPlain(s: string)
    requires IsSlug(s)
    ensures PlainSegment(s)
  {
    forall i | 0 <= i < |s| ensures PlainChar(s[i]) && s[i] != '/' {
      assert SlugChar(s[i]);
    }
    assert SlugChar(s[0]) && SlugChar(s[|s| - 1]);
  }

  /** A stripped href that is neither blank, nor a fragment, nor absolute or rooted. */
  predicate IsRelativeHref(h: string) {
    Strip(h) == h && h != "" && !StartsWith(h, "#") && !IsAbsoluteOrRooted(h)
  }

  /** The character-level facts about a card link `<airport>/<slug>`. */
  lemma CardLinkFacts(country: string, airport: string, slug: string)
    requires IsSlug(country) && IsSlug(airport) && IsSlug(slug)
    ensures var h := airport + "/" + slug;
            var ps := ["lounges", country, airport, slug];
            && IsRelativeHref(h) && h != ""
            && CardPath(country, h) == Rooted(ps)
            && AllPlainSegments(ps)
            && ["en-GB"] + ps == ["en-GB", "lounges", country, airport, slug]
            && IsDetailPath(ps)
  {
    SlugPlain(country);
    SlugPlain(airport);
    SlugPlain(slug);
    CardHref(airport, slug);
    CardPathRooted(country, airport, slug);
    var ps := ["lounges", country, airport, slug];
    assert AllPlainSegments(ps);
  }

  /** A card link is a relative href that `lstrip("/")` leaves alone. */
  lemma CardHref(airport: string, slug: string)
    requires IsSlug(airport) && IsSlug(slug)
    ensures IsRelativeHref(airport + "/" + slug)
    ensures TrimLeftChar(airport + "/" + slug, '/') == airport + "/" + slug
  {
    var h := airport + "/" + slug;
    assert h[0] == airport[0] && h[|h| - 1] == slug[|slug| - 1];
    assert ':' !in h by {
      forall k | 0 <= k < |h| ensures h[k] != ':' {
        if k < |airport| {
          assert h[k] == airport[k] && SlugChar(airport[k]);
        } else if k > |airport| {
          assert h[k] == slug[k - |airport| - 1] && SlugChar(slug[k - |airport| - 1]);
        }
      }
    }
    SlugEndsHref(h);
  }

  /** Text that starts and ends with a slug character and has no colon is a relative href that
      `lstrip("/")` leaves alone. */
  lemma SlugEndsHref(h: string)
    requires h != "" && SlugChar(h[0]) && SlugChar(h[|h| - 1]) && ':' !in h
    ensures IsRelativeHref(h) && TrimLeftChar(h, '/') == h
  {
    assert !IsSpace(h[0]) && !IsSpace(h[|h| - 1]);
    StripUnchanged(h);
    NoColonNotAbsolute(h);
    assert !StartsWith(h, "#") && !StartsWith(h, "/") by {
      assert h[..1][0] == h[0];
    }
    assert h[0] != '/';
  }

  /** Text without a colon names no scheme. */
  lemma NoColonNotAbsolute(h: string)
    requires ':' !in h
    ensures !StartsWith(h, "http://") && !StartsWith(h, "https://")
  {
    if |h| >= 7 {
      assert h[..7][4] == h[4] != ':';
    }
    if |h| >= 8 {
      assert h[..8][5] == h[5] != ':';
    }
  }

  /** The card path of `<airport>/<slug>` is the rooted path of its four segments. */
  lemma CardPathRooted(country: string, airport: string, slug: string)
    requires airport != "" && airport[0] != '/'
    ensures CardPath(country, airport + "/" + slug) == Rooted(["lounges", country, airport, slug])
  {
    var h := airport + "/" + slug;
    assert TrimLeftChar(h, '/') == h;
    JoinCons(airport, [slug]);
    assert [airport] + [slug] == [airport, slug];
    assert JoinWithSlash([slug]) == slug;
    JoinCons(country, [airport, slug]);
    JoinCons("lounges", [country, airport, slug]);
    assert "/lounges/" == "/" + "lounges" + "/";
  }

  lemma JoinCons(a: string, ps: seq<string>)
    requires ps != []
    ensures JoinWithSlash([a] + ps) == a + "/" + JoinWithSlash(ps)
  {
    assert ([a] + ps)[1..] == ps;
  }

  /** A card link `<airport>/<slug>` on a country's airport page becomes the canonical detail
      address `/en-GB/lounges/<country>/<airport>/<slug>`. */
  lemma {:induction false} NormalizeCardLink(country: string, airport: string, slug: string)
    requires IsSlug(country) && IsSlug(airport) && IsSlug(slug)
    ensures NormalizeLoungeDetailUrl(country, airport + "/" + slug)
         == Some(MyPpBase + Rooted(["en-GB", "lounges", country, airport, slug]))
  {
    CardLinkFacts(country, airport, slug);
    var ps := ["lounges", country, airport, slug];
    ToMyRooted(ps);
    ToMyRootedDetail(ps);
  }

  /** Normalising the address a plain link was normalised to gives that address back. */
  lemma {:induction false} NormalizeIdempotent(countrySlug: string, href: string, other: string)
    requires PlainText(countrySlug) && PlainText(href)
    requires NormalizeLoungeDetailUrl(countrySlug, href).Some?
    ensures NormalizeLoungeDetailUrl(other, NormalizeLoungeDetailUrl(countrySlug, href).value)
         == NormalizeLoungeDetailUrl(countrySlug, href)
  {
    NormalizeResult(countrySlug, href);
    NormalizeCanonical(other, CanonicalPath(Strip(LinkSource(countrySlug, href))));
  }

  /** The text `normalize_lounge_detail_url` canonicalises: the stripped href when it is absolute
      or rooted, otherwise the card path. */
  function LinkSource(countrySlug: string, href: string): string {
    var h := Strip(href);
    if IsAbsoluteOrRooted(h) then h else CardPath(countrySlug, h)
  }

  /** A plain link that normalises to an address normalises to the host and a canonical path
      that canonicalises to itself. */
  lemma NormalizeResult(countrySlug: string, href: string)
    requires PlainText(countrySlug) && PlainText(href)
    requires NormalizeLoungeDetailUrl(countrySlug, href).Some?
    ensures var p := CanonicalPath(Strip(LinkSource(countrySlug, href)));
            && NormalizeLoungeDetailUrl(countrySlug, href) == Some(MyPpBase + p)
            && p != "" && p[0] == '/' && !IsSpace(p[|p| - 1])
            && ToMyPriorityPassUrl(MyPpBase + p) == MyPpBase + p
            && IsLoungeDetailUrl(MyPpBase + p)
  {
    var x := LinkSource(countrySlug, href);
    NormalizeSource(countrySlug, href);
    NormalizeFrom(countrySlug, href);
    ToMyNonBlank(x);
    ToMyIdempotent(x);
  }

  /** A link that normalises to an address is canonicalised from its source. */
  lemma NormalizeFrom(countrySlug: string, href: string)
    requires NormalizeLoungeDetailUrl(countrySlug, href).Some?
    ensures NormalizeLoungeDetailUrl(countrySlug, href) == Some(ToMyPriorityPassUrl(LinkSource(countrySlug, href)))
    ensures Strip(LinkSource(countrySlug, href)) != ""
    ensures IsLoungeDetailUrl(ToMyPriorityPassUrl(LinkSource(countrySlug, href)))
  {
  }

  /** A plain source that is not blank canonicalises to the host and a plain canonical path. */
  lemma ToMyNonBlank(x: string)
    requires PlainText(x) && Strip(x) != ""
    ensures ToMyPriorityPassUrl(x) == MyPpBase + CanonicalPath(Strip(x))
    ensures !IsSpace(CanonicalPath(Strip(x))[|CanonicalPath(Strip(x))| - 1])
  {
    var raw := Strip(x);
    StripChars(x, PlainChar);
    CanonicalPathPlain(raw);
    ToMyOfNonBlank(x, raw);
  }

  /** A source that is not blank canonicalises to the host and the canonical path of its stripped form. */
  lemma ToMyOfNonBlank(x: string, raw: string)
    requires raw == Strip(x) && raw != ""
    ensures ToMyPriorityPassUrl(x) == MyPpBase + CanonicalPath(raw)
  {
  }

  /** An address `normalize_lounge_detail_url` produced is taken as it stands, whatever the country. */
  lemma NormalizeCanonical(other: string, p: string)
    requires p != "" && p[0] == '/' && !IsSpace(p[|p| - 1])
    requires ToMyPriorityPassUrl(MyPpBase + p) == MyPpBase + p && IsLoungeDetailUrl(MyPpBase + p)
    ensures NormalizeLoungeDetailUrl(other, MyPpBase + p) == Some(MyPpBase + p)
  {
    BaseJoin(p);
  }

  /** Where a plain href is canonicalised from: itself when absolute or rooted, otherwise the card
      path; either way plain text. */
  lemma NormalizeSource(countrySlug: string, href: string)
    requires PlainText(countrySlug) && PlainText(href)
    ensures PlainText(LinkSource(countrySlug, href))
  {
    StripChars(href, PlainChar);
    CardPathPlain(countrySlug, Strip(href));
  }

  lemma CardPathPlain(countrySlug: string, h: string)
    requires PlainText(countrySlug) && PlainText(h)
    ensures PlainText(CardPath(countrySlug, h))
  {
    TrimLeftCharSuffix(h, '/');
    SuffixChars(TrimLeftChar(h, '/'), h, PlainChar);
    ConcatChars("/lounges/", countrySlug, PlainChar);
    ConcatChars("/lounges/" + countrySlug, "/", PlainChar);
    ConcatChars("/lounges/" + countrySlug + "/", TrimLeftChar(h, '/'), PlainChar);
  }

  lemma TrimLeftCharSuffix(s: string, c: char)
    ensures IsSuffix(TrimLeftChar(s, c), s)
  {
  }

  // ---------------------------------------------------------------------------------------------
  // repair_duplicated_airport_segment

  /** The malformed detail paths the repair applies to: one segment too many after the country. */
  predicate HasExtraAirportSegment(parts: seq<string>) {
    || (|parts| >= 6 && Lower(parts[0]) == "en-gb" && parts[1] == "lounges")
    || (|parts| >= 5 && parts[0] == "lounges")
  }

  /** The index of the wrong airport segment: right after the country. */
  function ExtraSegmentIndex(parts: seq<string>): nat {
    if |parts| >= 6 && Lower(parts[0]) == "en-gb" && parts[1] == "lounges" then 3 else 2
  }

  /** `urlunparse((scheme or "https", netloc or "my.prioritypass.com", "/" + "/".join(parts), "", "", ""))`. */
  function Unparse(parsed: ParsedUrl, parts: seq<string>): string {
    (if parsed.scheme == "" then "https" else parsed.scheme) + "://"
      + (if parsed.netloc == "" then MyPpHost else parsed.netloc) + Rooted(parts)
  }

  /** `repair_duplicated_airport_segment`. */
  function RepairDuplicatedAirportSegment(url: string): (r: string)
    ensures !HasExtraAirportSegment(Segments(UrlParse(url).path)) ==> r == url
  {
    var parsed := UrlParse(url);
    var parts := Segments(parsed.path);
    if |parts| >= 6 && Lower(parts[0]) == "en-gb" && parts[1] == "lounges" then
      Unparse(parsed, parts[..3] + parts[4..])
    else if |parts| >= 5 && parts[0] == "lounges" then
      Unparse(parsed, parts[..2] + parts[3..])
    else url
  }

  /** The paths the repair is modelled on: one segment too many, and no `;` in the last segment,
      which `urlparse` would otherwise take for parameters. */
  predicate RepairApplies(parts: seq<string>) {
    HasExtraAirportSegment(parts) && ';' !in parts[|parts| - 1]
  }

  /** Segments a repaired address is written back with: a detail path of safe segments whose
      last segment holds no `;`. */
  predicate RepairedShape(fixed: seq<string>) {
    fixed != [] && IsDetailPath(fixed) && SafeSegments(fixed) && ';' !in fixed[|fixed| - 1]
  }

  /** Segments as `urlparse` leaves them: non-empty, without a slash, and of path characters. */
  predicate SafeSegments(parts: seq<string>) {
    forall q | q in parts :: AllChars(q, PathChar) && q != "" && '/' !in q
  }

  /** The segments with the one at `k` removed. */
  function Without(parts: seq<string>, k: nat): seq<string>
    requires k < |parts|
  {
    parts[..k] + parts[k + 1..]
  }

  /** The character-level facts about the repaired path. */
  lemma WithoutFacts(parts: seq<string>, k: nat)
    requires RepairApplies(parts) && k == ExtraSegmentIndex(parts)
    requires SafeSegments(parts)
    ensures var fixed := Without(parts, k);
            var p := Rooted(fixed);
            && p != "" && p[0] == '/' && RemoveUnsafe(p) == p
            && (forall scheme :: PathPart(scheme, p) == p)
            && Segments(p) == fixed
            && |fixed| == |parts| - 1
            && IsDetailPath(fixed)
            && (HasExtraAirportSegment(fixed) <==> |fixed| > k + 2)
            && (RepairApplies(fixed) <==> |fixed| > k + 2)
            && (HasExtraAirportSegment(fixed) ==> ExtraSegmentIndex(fixed) == k)
            && SafeSegments(fixed)
            && ';' !in fixed[|fixed| - 1]
            && RepairedShape(fixed)
    ensures Without(parts, k) == (if k == 3 then parts[..3] + parts[4..] else parts[..2] + parts[3..])
  {
    var fixed := Without(parts, k);
    WithoutSafe(parts, k);
    RootedSafe(fixed);
    WithoutDetail(parts, k);
  }

  /** Removing a middle segment keeps the others safe, and keeps the first two and the last. */
  lemma WithoutSafe(parts: seq<string>, k: nat)
    requires 2 <= k < |parts| - 1 && SafeSegments(parts)
    ensures var fixed := Without(parts, k);
            && SafeSegments(fixed) && |fixed| == |parts| - 1
            && fixed[0] == parts[0] && fixed[1] == parts[1]
            && fixed[|fixed| - 1] == parts[|parts| - 1]
  {
    var fixed := Without(parts, k);
    assert forall q | q in fixed :: q in parts;
  }

  /** ... and the shorter segments are still a detail path, repaired again only while long enough. */
  lemma WithoutDetail(parts: seq<string>, k: nat)
    requires RepairApplies(parts) && k == ExtraSegmentIndex(parts)
    ensures var fixed := Without(parts, k);
            && IsDetailPath(fixed)
            && (HasExtraAirportSegment(fixed) <==> |fixed| > k + 2)
            && (HasExtraAirportSegment(fixed) ==> ExtraSegmentIndex(fixed) == k)
    ensures Without(parts, k) == (if k == 3 then parts[..3] + parts[4..] else parts[..2] + parts[3..])
  {
    var fixed := Without(parts, k);
    assert fixed[0] == parts[0] && fixed[1] == parts[1];
    LowerEnGb();
  }

  /** The repaired address's scheme and host are well formed. */
  lemma RepairHead(parsed: ParsedUrl)
    requires parsed.scheme == "" || WellFormedScheme(parsed.scheme)
    requires AllChars(parsed.netloc, NetlocChar)
    ensures WellFormedScheme(if parsed.scheme == "" then "https" else parsed.scheme)
    ensures AllChars(if parsed.netloc == "" then MyPpHost else parsed.netloc, NetlocChar)
  {
    HttpsScheme();
  }

  /** The parsed path's segments are safe, non-empty and slash-free. */
  lemma ParsedSegments(url: string)
    ensures SafeSegments(Segments(UrlParse(url).path))
    ensures UrlParse(url).scheme == "" || WellFormedScheme(UrlParse(url).scheme)
    ensures AllChars(UrlParse(url).netloc, NetlocChar)
  {
    ParsedChars(url);
    SegmentsChars(UrlParse(url).path, PathChar);
    SegmentsSlashFree(UrlParse(url).path);
  }

  lemma UnparseNonEmpty(scheme: string, netloc: string, p: string)
    ensures scheme + "://" + netloc + p != ""
  {
    assert |scheme + "://" + netloc + p| >= 3;
  }

  /** On a malformed path the repair removes exactly the segment after the country: every other
      segment stays, in order, under the same scheme and host (the defaults filling in for
      missing ones), and the result is a detail page. The last segment must hold no `;`,
      which `urlparse` would otherwise take for parameters. */
  lemma {:induction false} RepairRemovesSegment(url: string)
    requires RepairApplies(Segments(UrlParse(url).path))
    ensures var parsed := UrlParse(url);
            var parts := Segments(parsed.path);
            var repaired := UrlParse(RepairDuplicatedAirportSegment(url));
            && repaired.path == Rooted(Without(parts, ExtraSegmentIndex(parts)))
            && Segments(repaired.path) == Without(parts, ExtraSegmentIndex(parts))
            && repaired.scheme == (if parsed.scheme == "" then "https" else parsed.scheme)
            && repaired.netloc == (if parsed.netloc == "" then MyPpHost else parsed.netloc)
            && IsLoungeDetailUrl(RepairDuplicatedAirportSegment(url))
  {
    var parsed := UrlParse(url);
    var parts := Segments(parsed.path);
    var k := ExtraSegmentIndex(parts);
    ParsedSegments(url);
    WithoutFacts(parts, k);
    RepairIsUnparse(url);
    UnparseParses(parsed, Without(parts, k));
  }

  /** On a malformed path the repair writes the parsed address back without the extra segment. */
  lemma RepairIsUnparse(url: string)
    requires HasExtraAirportSegment(Segments(UrlParse(url).path))
    ensures var parts := Segments(UrlParse(url).path);
            RepairDuplicatedAirportSegment(url) == Unparse(UrlParse(url), Without(parts, ExtraSegmentIndex(parts)))
  {
    var parts := Segments(UrlParse(url).path);
    WithoutShape(parts);
  }

  lemma WithoutShape(parts: seq<string>)
    requires HasExtraAirportSegment(parts)
    ensures Without(parts, ExtraSegmentIndex(parts))
         == (if |parts| >= 6 && Lower(parts[0]) == "en-gb" && parts[1] == "lounges" then parts[..3] + parts[4..]
             else parts[..2] + parts[3..])
  {
  }

  /** Writing a parsed address back with safe, slash-free segments parses again into the same
      scheme and host (or their defaults) and exactly those segments. */
  lemma UnparseParses(parsed: ParsedUrl, fixed: seq<string>)
    requires parsed.scheme == "" || WellFormedScheme(parsed.scheme)
    requires AllChars(parsed.netloc, NetlocChar)
    requires RepairedShape(fixed)
    ensures var repaired := UrlParse(Unparse(parsed, fixed));
            && repaired.path == Rooted(fixed)
            && Segments(repaired.path) == fixed
            && repaired.scheme == (if parsed.scheme == "" then "https" else parsed.scheme)
            && repaired.netloc == (if parsed.netloc == "" then MyPpHost else parsed.netloc)
            && IsLoungeDetailUrl(Unparse(parsed, fixed))
  {
    RepairHead(parsed);
    var scheme := if parsed.scheme == "" then "https" else parsed.scheme;
    var netloc := if parsed.netloc == "" then MyPpHost else parsed.netloc;
    RootedSafe(fixed);
    ParseAbsolute(scheme, netloc, Rooted(fixed));
    UnparseNonEmpty(scheme, netloc, Rooted(fixed));
  }

  /** The rooted path of safe, slash-free segments that end without parameters. */
  lemma RootedSafe(fixed: seq<string>)
    requires fixed != []
    requires SafeSegments(fixed)
    requires ';' !in fixed[|fixed| - 1]
    ensures var p := Rooted(fixed);
            && p != "" && p[0] == '/' && RemoveUnsafe(p) == p
            && (forall scheme :: PathPart(scheme, p) == p)
            && Segments(p) == fixed
  {
    forall q | q in fixed ensures AllChars(q, SafeChar) {
      assert AllChars(q, PathChar);
    }
    JoinChars(fixed, SafeChar);
    ConcatChars("/", JoinWithSlash(fixed), SafeChar);
    RemoveUnsafeSafe(Rooted(fixed));
    forall scheme ensures PathPart(scheme, Rooted(fixed)) == Rooted(fixed) {
      PathPartRooted(scheme, fixed);
    }
    SegmentsOfRooted(fixed);
  }

  /** A malformed path one segment longer than the shortest is repaired once for all. */
  lemma {:induction false} RepairSettles(url: string)
    requires RepairApplies(Segments(UrlParse(url).path))
    requires |Segments(UrlParse(url).path)| == ExtraSegmentIndex(Segments(UrlParse(url).path)) + 3
    ensures RepairDuplicatedAirportSegment(RepairDuplicatedAirportSegment(url)) == RepairDuplicatedAirportSegment(url)
  {
    var parts := Segments(UrlParse(url).path);
    ParsedSegments(url);
    WithoutFacts(parts, ExtraSegmentIndex(parts));
    RepairRemovesSegment(url);
  }

  /** The repair is not idempotent: a longer malformed path loses one more segment on each call. */
  lemma {:induction false} RepairNotIdempotent(url: string)
    requires RepairApplies(Segments(UrlParse(url).path))
    requires |Segments(UrlParse(url).path)| > ExtraSegmentIndex(Segments(UrlParse(url).path)) + 3
    ensures RepairDuplicatedAirportSegment(RepairDuplicatedAirportSegment(url)) != RepairDuplicatedAirportSegment(url)
  {
    var parts := Segments(UrlParse(url).path);
    var k := ExtraSegmentIndex(parts);
    ParsedSegments(url);
    WithoutFacts(parts, k);
    RepairRemovesSegment(url);
    var once := RepairDuplicatedAirportSegment(url);
    RepairRemovesSegment(once);
    WithoutLength(Without(parts, k), k);
  }

  lemma WithoutLength(parts: seq<string>, k: nat)
    requires k < |parts|
    ensures |Without(parts, k)| == |parts| - 1
  {
  }

  // ---------------------------------------------------------------------------------------------
  // try_recover_detail_url_from_redirect

  /** Segments that begin `en-GB/lounges` (language compared without regard to case). */
  predicate UnderLangLounges(parts: seq<string>) {
    |parts| >= 2 && Lower(parts[0]) == "en-gb" && parts[1] == "lounges"
  }

  function DetailPath(country: string, airport: string, slug: string): string {
    "/en-GB/lounges/" + country + "/" + airport + "/" + slug
  }

  /** `try_recover_detail_url_from_redirect`: rebuild the detail address from the airport page or
      the country page a detail request was redirected to (`RecoverFromSegments`). */
  function TryRecoverDetailUrlFromRedirect(originalUrl: string, redirectedUrl: string): (r: Option<string>)
    ensures r.Some? ==> IsLoungeDetailUrl(r.value) && StartsWith(r.value, MyPpBase + "/")
  {
    RecoverFromSegments(Segments(UrlParse(originalUrl).path), Segments(UrlParse(redirectedUrl).path))
  }

  /** The decision of `try_recover_detail_url_from_redirect` on the path segments `o` of the
      original address and `rp` of the redirect target: the original's last segment (and, from
      a country page, its airport segment) is put under the country and airport the redirect
      names. */
  function RecoverFromSegments(o: seq<string>, rp: seq<string>): (r: Option<string>)
    ensures |o| < 5 ==> r == None
    ensures r.Some? ==> IsLoungeDetailUrl(r.value) && StartsWith(r.value, MyPpBase + "/")
    ensures !(UnderLangLounges(rp) && |rp| >= 3) ==> r == None
  {
    if |o| < 5 then None
    else
      var detailSlug := o[|o| - 1];
      var originalAirport := o[|o| - 2];
      var fromAirportPage :=
        if |rp| >= 4 && UnderLangLounges(rp) then KeepIfDetail(ToMyPriorityPassUrl(DetailPath(rp[2], rp[3], detailSlug)))
        else None;
      if fromAirportPage.Some? then fromAirportPage
      else if |rp| == 3 && UnderLangLounges(rp) then
        KeepIfDetail(ToMyPriorityPassUrl(DetailPath(rp[2], originalAirport, detailSlug)))
      else None
  }

  /** The character-level facts about a rebuilt detail path. */
  lemma DetailPathFacts(country: string, airport: string, slug: string)
    requires PlainSegment(country) && PlainSegment(airport) && PlainSegment(slug)
    ensures var ps := ["en-GB", "lounges", country, airport, slug];
            && DetailPath(country, airport, slug) == Rooted(ps)
            && AllPlainSegments(ps) && IsDetailPath(ps)
            && !(|ps| >= 2 && ps[0] == "lounges")
  {
    DetailPathJoin(country, airport, slug);
    DetailSegments(country, airport, slug);
  }

  lemma DetailPathJoin(country: string, airport: string, slug: string)
    ensures DetailPath(country, airport, slug) == Rooted(["en-GB", "lounges", country, airport, slug])
  {
    var j := JoinWithSlash([slug]);
    assert j == slug;
    JoinCons(airport, [slug]);
    assert [airport] + [slug] == [airport, slug];
    JoinCons(country, [airport, slug]);
    assert [country] + [airport, slug] == [country, airport, slug];
    JoinCons("lounges", [country, airport, slug]);
    assert ["lounges"] + [country, airport, slug] == ["lounges", country, airport, slug];
    JoinCons("en-GB", ["lounges", country, airport, slug]);
    assert ["en-GB"] + ["lounges", country, airport, slug] == ["en-GB", "lounges", country, airport, slug];
    DetailPathRegroup(country, airport, slug);
  }

  lemma DetailPathRegroup(country: string, airport: string, slug: string)
    ensures DetailPath(country, airport, slug)
         == "/" + ("en-GB" + "/" + ("lounges" + "/" + (country + "/" + (airport + "/" + slug))))
  {
    assert "/en-GB/lounges/" == "/" + "en-GB" + "/" + "lounges" + "/";
  }

  lemma DetailSegments(country: string, airport: string, slug: string)
    requires PlainSegment(country) && PlainSegment(airport) && PlainSegment(slug)
    ensures var ps := ["en-GB", "lounges", country, airport, slug];
            && AllPlainSegments(ps) && IsDetailPath(ps)
            && !(|ps| >= 2 && ps[0] == "lounges")
  {
    var ps := ["en-GB", "lounges", country, airport, slug];
    assert PlainSegment("en-GB") && PlainSegment("lounges");
    assert AllPlainSegments(ps);
    LowerEnGb();
    assert "en-GB"[0] != "lounges"[0];
  }

  /** The rebuilt path is canonical and a detail page when its three segments are plain. */
  lemma {:induction false} DetailPathCanonical(country: string, airport: string, slug: string)
    requires PlainSegment(country) && PlainSegment(airport) && PlainSegment(slug)
    ensures ToMyPriorityPassUrl(DetailPath(country, airport, slug))
         == MyPpBase + Rooted(["en-GB", "lounges", country, airport, slug])
    ensures IsLoungeDetailUrl(ToMyPriorityPassUrl(DetailPath(country, airport, slug)))
  {
    var ps := ["en-GB", "lounges", country, airport, slug];
    DetailPathFacts(country, airport, slug);
    ToMyRooted(ps);
    CanonicalDetail(ps);
  }

  /** Redirected to an airport page `en-GB/lounges/<country>/<airport>/...`: the detail address is
      rebuilt under that country and airport with the original's last segment. */
  lemma {:induction false} RecoverFromAirportPage(o: seq<string>, rp: seq<string>)
    requires |o| >= 5 && PlainSegment(o[|o| - 1])
    requires |rp| >= 4 && UnderLangLounges(rp) && PlainSegment(rp[2]) && PlainSegment(rp[3])
    ensures RecoverFromSegments(o, rp) == Some(MyPpBase + Rooted(["en-GB", "lounges", rp[2], rp[3], o[|o| - 1]]))
  {
    DetailPathCanonical(rp[2], rp[3], o[|o| - 1]);
  }

  /** Redirected to a country page `en-GB/lounges/<country>`: the original's airport and last
      segments are put under that country. */
  lemma {:induction false} RecoverFromCountryPage(o: seq<string>, rp: seq<string>)
    requires |o| >= 5 && PlainSegment(o[|o| - 2]) && PlainSegment(o[|o| - 1])
    requires |rp| == 3 && UnderLangLounges(rp) && PlainSegment(rp[2])
    ensures RecoverFromSegments(o, rp) == Some(MyPpBase + Rooted(["en-GB", "lounges", rp[2], o[|o| - 2], o[|o| - 1]]))
  {
    var u := ToMyPriorityPassUrl(DetailPath(rp[2], o[|o| - 2], o[|o| - 1]));
    CountryPageBranch(o, rp);
    DetailPathCanonical(rp[2], o[|o| - 2], o[|o| - 1]);
    assert KeepIfDetail(u) == Some(u);
  }

  lemma CountryPageBranch(o: seq<string>, rp: seq<string>)
    requires |o| >= 5 && |rp| == 3 && UnderLangLounges(rp)
    ensures RecoverFromSegments(o, rp) == KeepIfDetail(ToMyPriorityPassUrl(DetailPath(rp[2], o[|o| - 2], o[|o| - 1])))
  {
  }

  /** The empty address has no path segments. */
  lemma EmptyUrlSegments(url: string)
    requires |url| == 0
    ensures Segments(UrlParse(url).path) == []
  {
    EmptyPlain(url);
    ParsePlain(url);
    SegmentsOfEmpty(UrlParse(url).path, url);
  }

  lemma EmptyPlain(s: string)
    requires |s| == 0
    ensures PlainText(s)
  {
  }

  lemma SegmentsOfEmpty(p: string, s: string)
    requires IsSuffix(p, s) && |s| == 0
    ensures Segments(p) == []
  {
    assert p == "";
    assert Pieces(p) == [""];
  }

  /** An address that is not a detail page has no detail-shaped segments. */
  lemma NonDetailSegments(url: string)
    requires !IsLoungeDetailUrl(url)
    ensures !IsDetailPath(Segments(UrlParse(url).path))
  {
    if |url| == 0 {
      EmptyUrlSegments(url);
      NoSegmentsNoDetail(Segments(UrlParse(url).path));
    } else {
      assert url != "";
    }
  }

  lemma NoSegmentsNoDetail(ps: seq<string>)
    requires ps == []
    ensures !IsDetailPath(ps)
  {
  }

  /** The repair leaves an address that is not a detail page alone. */
  lemma RepairKeepsNonDetail(url: string)
    requires !IsLoungeDetailUrl(url)
    ensures RepairDuplicatedAirportSegment(url) == url
  {
    NonDetailSegments(url);
  }

  /** An address that is not a detail page, redirected to itself, recovers nothing. */
  lemma RecoverNonDetailSelf(url: string)
    requires !IsLoungeDetailUrl(url)
    ensures TryRecoverDetailUrlFromRedirect(url, url) == None
  {
    NonDetailSegments(url);
    RecoverSelf(Segments(UrlParse(url).path));
  }

  lemma RecoverSelf(o: seq<string>)
    requires !IsDetailPath(o)
    ensures RecoverFromSegments(o, o) == None
  {
  }

  /** Recovery needs five original segments, so an unprefixed detail address, which has four,
      is never recovered. */
  lemma {:induction false} RecoverNeedsFiveSegments(country: string, airport: string, slug: string, redirectedUrl: string)
    requires PlainSegment(country) && PlainSegment(airport) && PlainSegment(slug)
    ensures IsLoungeDetailUrl(MyPpBase + Rooted(["lounges", country, airport, slug]))
    ensures TryRecoverDetailUrlFromRedirect(MyPpBase + Rooted(["lounges", country, airport, slug]), redirectedUrl) == None
  {
    var ps := ["lounges", country, airport, slug];
    assert AllPlainSegments(ps);
    CanonicalDetail(ps);
    RootedPlain(ps);
    SegmentsOfRooted(ps);
  }

  // ---------------------------------------------------------------------------------------------
  // The airport index links

  /** The test `parse_priority_pass_airport_links` applies to a stripped href:
      `/lounges/<country>/<airport>`, with no trailing slash. */
  predicate IsAirportIndexLink(href: string) {
    StartsWith(href, "/lounges/") && Count(href, '/') == 3 && !(href != "" && href[|href| - 1] == '/')
  }

  /** The character-level facts about an index link. */
  lemma IndexLinkFacts(href: string)
    requires IsAirportIndexLink(href)
    ensures href != "" && href[0] == '/' && href[1] != '/' && SafeChar(href[1])
    ensures Count(RemoveUnsafe(href), '/') == 3
    ensures RemoveUnsafe(href) != "" && RemoveUnsafe(href)[0] == '/'
  {
    assert href[..9] == "/lounges/";
    assert href[1] == "/lounges/"[1];
    RemoveUnsafeCount(href);
    RemoveUnsafeKeepsSlash(href);
  }

  /** An airport index link has at most three segments, so it is never taken for a detail page. */
  lemma {:induction false} IndexLinkNotDetail(href: string)
    requires IsAirportIndexLink(href)
    ensures |Segments(UrlParse(href).path)| <= 3
    ensures !IsLoungeDetailUrl(href)
  {
    IndexLinkFacts(href);
    ParseRooted(href);
    PathCount(RemoveUnsafe(href));
  }

  /** The path `urlparse` keeps from a rooted string has no more segments than the string has slashes. */
  lemma PathCount(u: string)
    requires u != "" && u[0] == '/'
    ensures |Segments(PathPart("", u))| <= Count(u, '/')
  {
    var path := PathPart("", u);
    PathPartPrefix("", u);
    CountPrefix(u, |path|);
    SegmentsCount(path);
  }

  lemma {:induction false} RemoveUnsafeCount(s: string)
    ensures Count(RemoveUnsafe(s), '/') == Count(s, '/')
  {
    if s != [] {
      RemoveUnsafeCount(s[1..]);
      var h: string := if IsUnsafe(s[0]) then [] else [s[0]];
      CountConcat(h, RemoveUnsafe(s[1..]));
    }
  }

  lemma {:induction false} CountConcat(a: string, b: string)
    ensures Count(a + b, '/') == Count(a, '/') + Count(b, '/')
  {
    if a == [] {
      assert a + b == b;
    } else {
      assert (a + b)[0] == a[0];
      assert (a + b)[1..] == a[1..] + b;
      CountConcat(a[1..], b);
    }
  }

  lemma CountPrefix(s: string, k: nat)
    requires k <= |s|
    ensures Count(s[..k], '/') <= Count(s, '/')
  {
    assert s == s[..k] + s[k..];
    CountConcat(s[..k], s[k..]);
  }

  /** `urlparse` only ever cuts a path short: its path is a prefix of what follows the host, and
      keeps that text's first character when it is a slash. */
  lemma PathPartPrefix(scheme: string, u: string)
    requires u != "" && u[0] == '/'
    ensures var p := PathPart(scheme, u); |p| <= |u| && p == u[..|p|] && p != "" && p[0] == '/'
  {
    var a := BeforeFirst(u, '#');
    BeforeFirstPrefix(u, '#');
    var b := BeforeFirst(a, '?');
    BeforeFirstPrefix(a, '?');
    PrefixTrans(b, a, u);
    if scheme in UsesParams {
      CutParamsPrefix(b);
      PrefixTrans(CutParams(b), b, u);
    }
  }

  /** `BeforeFirst` keeps a first piece, including the first character when that is not `c`. */
  lemma BeforeFirstPrefix(s: string, c: char)
    requires s != "" && s[0] != c
    ensures var r := BeforeFirst(s, c); |r| <= |s| && r == s[..|r|] && r != "" && r[0] == s[0]
  {
  }

  lemma CutParamsPrefix(b: string)
    requires b != "" && b[0] == '/'
    ensures var r := CutParams(b); |r| <= |b| && r == b[..|r|] && r != "" && r[0] == '/'
  {
    var j := LastIndexOf(b, '/');
    assert '/' in b by { assert b[0] == '/'; }
    var rest := b[j + 1..];
    var t := BeforeFirst(rest, ';');
    assert CutParams(b) == b[..j + 1] + t;
    BeforeFirstIsPrefix(rest, ';');
    PrefixJoin(b, j + 1, t);
    var n := j + 1 + |t|;
    assert CutParams(b) == b[..n] && |CutParams(b)| == n;
    PrefixHead(b, n);
  }

  lemma PrefixHead(b: string, n: nat)
    requires 1 <= n <= |b|
    ensures b[..n] != "" && b[..n][0] == b[0]
  {
  }

  lemma BeforeFirstIsPrefix(s: string, c: char)
    ensures var r := BeforeFirst(s, c); |r| <= |s| && r == s[..|r|]
  {
  }

  /** A first piece of what follows `n` joined to what precedes it is a first piece of `b`. */
  lemma PrefixJoin(b: string, n: nat, t: string)
    requires n <= |b| && |t| <= |b| - n && t == b[n..][..|t|]
    ensures |b[..n] + t| <= |b| && b[..n] + t == b[..n + |t|]
  {
  }

  lemma PrefixTrans(r: string, s: string, u: string)
    requires |r| <= |s| && r == s[..|r|] && |s| <= |u| && s == u[..|s|]
    ensures |r| <= |u| && r == u[..|r|]
  {
  }

  /** A path that starts with a slash has no more segments than slashes. */
  lemma SegmentsCount(p: string)
    requires p != "" && p[0] == '/'
    ensures |Segments(p)| <= Count(p, '/')
  {
    SegmentsOfSlash(p[1..]);
    assert p == "/" + p[1..];
    PiecesCount(p[1..]);
    NonEmptyLength(Pieces(p[1..]));
  }

  lemma {:induction false} PiecesCount(s: string)
    ensures |Pieces(s)| == Count(s, '/') + 1
    decreases |s|
  {
    var i := IndexOf(s, '/');
    if i >= 0 {
      PiecesCount(s[i + 1..]);
      assert s == s[..i] + ([s[i]] + s[i + 1..]);
      CountConcat(s[..i], [s[i]] + s[i + 1..]);
      CountConcat([s[i]], s[i + 1..]);
      CountAbsent(s[..i]);
    } else {
      CountAbsent(s);
    }
  }

  lemma {:induction false} CountAbsent(s: string)
    requires '/' !in s
    ensures Count(s, '/') == 0
  {
    if s != [] {
      assert forall k | 0 <= k < |s| - 1 :: s[1..][k] == s[k + 1];
      CountAbsent(s[1..]);
    }
  }

  lemma {:induction false} NonEmptyLength(ps: seq<string>)
    ensures |NonEmpty(ps)| <= |ps|
  {
    if ps != [] {
      NonEmptyLength(ps[1..]);
    }
  }
}
