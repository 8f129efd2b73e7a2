/** The parts of Python's `urllib.parse` that the crawler uses: `urlparse` reduced to the scheme,
    network location and path it reads, and the path segments every classifier counts. */
module Urls {
  import opened Text

  /** `urlparse(s)`'s `.scheme`, `.netloc` and `.path`. */
  datatype ParsedUrl = ParsedUrl(scheme: string, netloc: string, path: string)

  /** `urllib.parse.uses_params`: the schemes for which `urlparse` splits `;parameters` off the path. */
  const UsesParams: set<string> :=
    {"", "ftp", "hdl", "prospero", "http", "imap", "https", "shttp", "rtsp", "rtspu", "sip", "sips", "mms", "sftp", "tel"}

  predicate IsSchemeChar(c: char) { IsAsciiLetter(c) || IsDigit(c) || c == '+' || c == '-' || c == '.' }

  /** Characters `urlsplit` deletes wherever they occur. */
  predicate IsUnsafe(c: char) { c == '\t' || c == '\r' || c == '\n' }

  predicate SafeChar(c: char) { !IsUnsafe(c) }

  predicate IsNetlocDelimiter(c: char) { c == '/' || c == '?' || c == '#' }

  /** A character that can stand in a parsed network location. */
  predicate NetlocChar(c: char) { !IsUnsafe(c) && !IsNetlocDelimiter(c) }

  /** A character that can stand in a parsed path. */
  predicate PathChar(c: char) { !IsUnsafe(c) && c != '?' && c != '#' }

  /** A character `urlparse` has nothing to take apart at: no control character, no `?`, `#` or `;`. */
  predicate PlainChar(c: char) { ' ' <= c && c != '?' && c != '#' && c != ';' }

  predicate AllChars(s: string, f: char -> bool) {
    forall i | 0 <= i < |s| :: f(s[i])
  }

  predicate PlainText(s: string) { AllChars(s, PlainChar) }

  /** `t` is a final piece of `s`. */
  predicate IsSuffix(t: string, s: string) { |t| <= |s| && t == s[|s| - |t|..] }

  /** A scheme as `urlparse` reports it: a letter, then scheme characters, in lower case. */
  predicate WellFormedScheme(s: string) {
    s != "" && IsAsciiLetter(s[0]) && AllChars(s, IsSchemeChar) && Lower(s) == s
  }

  /** First step of `urlsplit`: strip leading C0 control characters and spaces. */
  function LStripControl(s: string): (r: string)
    ensures IsSuffix(r, s)
    ensures r != "" ==> r[0] > ' '
  {
    if s != [] && s[0] <= ' ' then LStripControl(s[1..]) else s
  }

  /** Second step of `urlsplit`: delete every TAB, CR and LF. */
  function RemoveUnsafe(s: string): (r: string)
    ensures AllChars(r, SafeChar)
    ensures |r| <= |s|
  {
    if s == [] then []
    else (if IsUnsafe(s[0]) then [] else [s[0]]) + RemoveUnsafe(s[1..])
  }

  /** Both steps in one pass: while `leading`, drop characters up to the space; always drop TAB, CR and LF. */
  function Scrub(s: string, leading: bool): string {
    if s == [] then []
    else if leading && s[0] <= ' ' then Scrub(s[1..], true)
    else if IsUnsafe(s[0]) then Scrub(s[1..], false)
    else [s[0]] + Scrub(s[1..], false)
  }

  /** The text `urlsplit` takes apart: its two cleaning steps, one after the other (lemma `CleanedSteps`). */
  function Cleaned(s: string): (u: string)
    ensures AllChars(u, SafeChar)
  {
    CleanedSteps(s);
    Scrub(s, true)
  }

  /** The scheme test of `urlsplit`: the index of the colon ending a scheme (text before the first
      `:` that starts with a letter and consists of scheme characters), or -1 when there is none. */
  function SchemeEnd(u: string): (i: int)
    ensures -1 <= i < |u|
    ensures 0 <= i ==> i > 0 && u[i] == ':' && IsAsciiLetter(u[0]) && AllChars(u[..i], IsSchemeChar)
  {
    var i := IndexOf(u, ':');
    if i > 0 && IsAsciiLetter(u[0]) && AllChars(u[..i], IsSchemeChar) then i else -1
  }

  /** The scheme `urlsplit` reports: lower-cased, or empty. */
  function SchemeOf(u: string): string {
    var i := SchemeEnd(u);
    if i < 0 then "" else Lower(u[..i])
  }

  /** What follows the scheme and its colon (all of `u` when there is no scheme). */
  function AfterScheme(u: string): (r: string)
    ensures IsSuffix(r, u)
  {
    u[SchemeEnd(u) + 1..]
  }

  predicate HasAuthority(rest: string) { |rest| >= 2 && rest[0] == '/' && rest[1] == '/' }

  /** Where the network location ends: at the first `/`, `?` or `#`. */
  function NetlocEnd(s: string): (i: nat)
    ensures i <= |s|
    ensures forall k | 0 <= k < i :: !IsNetlocDelimiter(s[k])
    ensures i < |s| ==> IsNetlocDelimiter(s[i])
  {
    if s == [] || IsNetlocDelimiter(s[0]) then 0 else 1 + NetlocEnd(s[1..])
  }

  /** The network location: what follows `//` up to the first delimiter. */
  function NetlocOf(rest: string): (n: string)
    ensures forall k | 0 <= k < |n| :: !IsNetlocDelimiter(n[k])
  {
    if HasAuthority(rest) then rest[2..][..NetlocEnd(rest[2..])] else ""
  }

  /** What follows the network location. */
  function PathSource(rest: string): (t: string)
    ensures IsSuffix(t, rest)
  {
    if HasAuthority(rest) then rest[2 + NetlocEnd(rest[2..])..] else rest
  }

  /** `_splitparams`: cut the path at the first `;` after its last `/`. */
  function CutParams(path: string): string {
    var j := LastIndexOf(path, '/');
    path[..j + 1] + BeforeFirst(path[j + 1..], ';')
  }

  /** What `urlparse` keeps as the path: the fragment (after `#`) and the query (after `?`) go,
      and so do parameters for schemes that have them. */
  function PathPart(scheme: string, rest: string): string {
    var p := BeforeFirst(BeforeFirst(rest, '#'), '?');
    if scheme in UsesParams then CutParams(p) else p
  }

  /** `urllib.parse.urlparse(s)` (Python 3.9.17+, 3.10.12+, 3.11.4+ and 3.12), without the validation of the network location. */
  function UrlParse(s: string): ParsedUrl {
    var u := Cleaned(s);
    var rest := AfterScheme(u);
    ParsedUrl(SchemeOf(u), NetlocOf(rest), PathPart(SchemeOf(u), PathSource(rest)))
  }

  /** `s.split("/")`. */
  function Pieces(s: string): (ps: seq<string>)
    ensures |ps| >= 1
    decreases |s|
  {
    var i := IndexOf(s, '/');
    if i < 0 then [s] else [s[..i]] + Pieces(s[i + 1..])
  }

  /** The non-empty strings of `ps`, in order. */
  function NonEmpty(ps: seq<string>): seq<string> {
    if ps == [] then [] else (if ps[0] == "" then [] else [ps[0]]) + NonEmpty(ps[1..])
  }

  /** `[p for p in path.strip("/").split("/") if p]`: the path segments. */
  function Segments(path: string): seq<string> {
    NonEmpty(Pieces(path))
  }

  /** `"/".join(ps)`. */
  function JoinWithSlash(ps: seq<string>): string {
    if ps == [] then "" else if |ps| == 1 then ps[0] else ps[0] + "/" + JoinWithSlash(ps[1..])
  }

  /** `"/" + "/".join(ps)`: the path made of the segments `ps`. */
  function Rooted(ps: seq<string>): string {
    "/" + JoinWithSlash(ps)
  }

  /** A path segment that survives every round through `urlparse` and `strip()` unchanged. */
  predicate PlainSegment(p: string) {
    p != "" && '/' !in p && PlainText(p) && !IsSpace(p[0]) && !IsSpace(p[|p| - 1])
  }

  // ---------------------------------------------------------------------------------------------
  // Characters of pieces

  lemma SuffixTrans(a: string, b: string, c: string)
    requires IsSuffix(a, b) && IsSuffix(b, c)
    ensures IsSuffix(a, c)
  {
    assert c[|c| - |b|..][|b| - |a|..] == c[|c| - |a|..];
  }

  lemma SliceChars(s: string, lo: int, hi: int, f: char -> bool)
    requires 0 <= lo <= hi <= |s| && AllChars(s, f)
    ensures AllChars(s[lo..hi], f)
  {
    forall i | 0 <= i < hi - lo ensures f(s[lo..hi][i]) {
      assert s[lo..hi][i] == s[lo + i];
    }
  }

  lemma SuffixChars(t: string, s: string, f: char -> bool)
    requires IsSuffix(t, s) && AllChars(s, f)
    ensures AllChars(t, f)
  {
    SliceChars(s, |s| - |t|, |s|, f);
  }

  /** Stripping keeps only characters of the input. */
  lemma StripChars(s: string, f: char -> bool)
    requires AllChars(s, f)
    ensures AllChars(Strip(s), f)
  {
    var t := TrimLeft(s);
    SliceChars(s, |s| - |t|, |s|, f);
    SliceChars(t, 0, |TrimRight(t)|, f);
  }

  lemma ConcatChars(a: string, b: string, f: char -> bool)
    requires AllChars(a, f) && AllChars(b, f)
    ensures AllChars(a + b, f)
  {
    forall i | 0 <= i < |a + b| ensures f((a + b)[i]) {
      if i >= |a| { assert (a + b)[i] == b[i - |a|]; }
    }
  }

  lemma Excluded(s: string, f: char -> bool, c: char)
    requires AllChars(s, f) && !f(c)
    ensures c !in s
  {
    forall i | 0 <= i < |s| ensures s[i] != c {
      assert f(s[i]);
    }
  }

  lemma NotInSlice(s: string, c: char, lo: int)
    requires 0 <= lo <= |s| && c !in s
    ensures c !in s[lo..]
  {
    forall i | 0 <= i < |s| - lo ensures s[lo..][i] != c {
      assert s[lo..][i] == s[lo + i];
    }
  }

  lemma BeforeFirstAbsent(s: string, c: char)
    requires c !in s
    ensures BeforeFirst(s, c) == s
  {
  }

  lemma BeforeFirstChars(s: string, c: char, f: char -> bool)
    requires AllChars(s, f)
    ensures AllChars(BeforeFirst(s, c), f)
    ensures c !in BeforeFirst(s, c)
  {
    var i := IndexOf(s, c);
    if i >= 0 {
      SliceChars(s, 0, i, f);
    }
  }

  // ---------------------------------------------------------------------------------------------
  // The algebra of segments

  lemma IndexOfIs(s: string, c: char, j: int)
    requires 0 <= j < |s| && s[j] == c && c !in s[..j]
    ensures IndexOf(s, c) == j
  {
  }

  lemma {:induction false} PiecesConcat(a: string, b: string)
    ensures Pieces(a + "/" + b) == Pieces(a) + Pieces(b)
    decreases |a|
  {
    var j := IndexOf(a, '/');
    if j < 0 {
      PiecesConcatLast(a, b);
    } else {
      PiecesConcat(a[j + 1..], b);
      PiecesConcatStep(a, b, j);
    }
  }

  lemma PiecesConcatLast(a: string, b: string)
    requires '/' !in a
    ensures Pieces(a + "/" + b) == [a] + Pieces(b) && Pieces(a) == [a]
  {
    var s := a + "/" + b;
    assert s[..|a|] == a && s[|a|] == '/';
    PiecesAt(s, |a|);
    assert s[|a| + 1..] == b;
  }

  /** The inductive step of `PiecesConcat`: from the rest after the first slash of `a` to all of `a`. */
  lemma PiecesConcatStep(a: string, b: string, j: int)
    requires j == IndexOf(a, '/') && j >= 0
    requires Pieces(a[j + 1..] + "/" + b) == Pieces(a[j + 1..]) + Pieces(b)
    ensures Pieces(a + "/" + b) == Pieces(a) + Pieces(b)
  {
    SliceInside(a, b, j);
    PiecesAt(a + "/" + b, j);
    PiecesAt(a, j);
    ConcatAssoc([a[..j]], Pieces(a[j + 1..]), Pieces(b));
  }

  lemma ConcatAssoc<T>(x: seq<T>, y: seq<T>, z: seq<T>)
    ensures x + (y + z) == (x + y) + z
  {
  }

  /** Slicing `a + "/" + b` at an index inside `a`. */
  lemma SliceInside(a: string, b: string, j: int)
    requires 0 <= j < |a|
    ensures (a + "/" + b)[..j] == a[..j] && (a + "/" + b)[j] == a[j]
    ensures (a + "/" + b)[j + 1..] == a[j + 1..] + "/" + b
  {
  }

  /** The first slash of `s` at `j` ends its first piece. */
  lemma PiecesAt(s: string, j: int)
    requires 0 <= j < |s| && s[j] == '/' && '/' !in s[..j]
    ensures Pieces(s) == [s[..j]] + Pieces(s[j + 1..])
  {
    IndexOfIs(s, '/', j);
  }

  lemma {:induction false} NonEmptyConcat(x: seq<string>, y: seq<string>)
    ensures NonEmpty(x + y) == NonEmpty(x) + NonEmpty(y)
  {
    if x == [] {
      assert x + y == y;
    } else {
      assert (x + y)[0] == x[0];
      assert (x + y)[1..] == x[1..] + y;
      NonEmptyConcat(x[1..], y);
    }
  }

  /** Joining two paths with a slash concatenates their segment lists. */
  lemma SegmentsConcat(a: string, b: string)
    ensures Segments(a + "/" + b) == Segments(a) + Segments(b)
  {
    PiecesConcat(a, b);
    NonEmptyConcat(Pieces(a), Pieces(b));
  }

  lemma {:induction false} PiecesOfJoin(ps: seq<string>)
    requires |ps| >= 1 && forall p | p in ps :: '/' !in p
    ensures Pieces(JoinWithSlash(ps)) == ps
  {
    if |ps| > 1 {
      PiecesOfJoin(ps[1..]);
      PiecesConcat(ps[0], JoinWithSlash(ps[1..]));
    }
  }

  lemma {:induction false} NonEmptyOfNonEmpty(ps: seq<string>)
    requires forall p | p in ps :: p != ""
    ensures NonEmpty(ps) == ps
  {
    if ps != [] {
      assert ps[0] in ps;
      assert forall p | p in ps[1..] :: p in ps;
      NonEmptyOfNonEmpty(ps[1..]);
      assert ps == [ps[0]] + ps[1..];
    }
  }

  /** `Rooted` is a right inverse of `Segments` on slash-free, non-empty segments. */
  lemma SegmentsOfRooted(ps: seq<string>)
    requires forall p | p in ps :: p != "" && '/' !in p
    ensures Segments(Rooted(ps)) == ps
  {
    SegmentsConcat("", JoinWithSlash(ps));
    assert Rooted(ps) == "" + "/" + JoinWithSlash(ps);
    if ps == [] {
      assert Pieces("") == [""];
    } else {
      PiecesOfJoin(ps);
      NonEmptyOfNonEmpty(ps);
    }
  }

  /** A leading slash adds no segment. */
  lemma SegmentsOfSlash(p: string)
    ensures Segments("/" + p) == Segments(p)
  {
    SegmentsConcat("", p);
    assert "" + "/" + p == "/" + p;
    assert Pieces("") == [""];
  }

  /** The characters of a joined path are those of its segments and slashes. */
  lemma {:induction false} JoinChars(ps: seq<string>, f: char -> bool)
    requires f('/') && forall p | p in ps :: AllChars(p, f)
    ensures AllChars(JoinWithSlash(ps), f)
  {
    if |ps| == 1 {
      assert ps[0] in ps;
    } else if |ps| > 1 {
      assert ps[0] in ps;
      assert forall p | p in ps[1..] :: p in ps;
      JoinChars(ps[1..], f);
      ConcatChars(ps[0], "/", f);
      ConcatChars(ps[0] + "/", JoinWithSlash(ps[1..]), f);
    }
  }

  /** The joined path begins with the first segment and ends with the last. */
  lemma {:induction false} JoinEnds(ps: seq<string>)
    requires ps != [] && forall i | 0 <= i < |ps| :: ps[i] != ""
    ensures JoinWithSlash(ps) != ""
    ensures JoinWithSlash(ps)[0] == ps[0][0]
    ensures JoinWithSlash(ps)[|JoinWithSlash(ps)| - 1] == ps[|ps| - 1][|ps[|ps| - 1]| - 1]
  {
    if |ps| > 1 {
      JoinEnds(ps[1..]);
    }
  }

  /** The last slash of a joined path is the one before its last segment. */
  lemma {:induction false} JoinSplitLast(ps: seq<string>)
    requires |ps| >= 2
    ensures JoinWithSlash(ps) == JoinWithSlash(ps[..|ps| - 1]) + "/" + ps[|ps| - 1]
  {
    if |ps| > 2 {
      JoinSplitLast(ps[1..]);
      assert ps[1..][..|ps| - 2] == ps[..|ps| - 1][1..];
    } else {
      assert ps[..1] == [ps[0]];
    }
  }

  /** Segments keep only characters of the path they come from. */
  lemma SegmentsChars(p: string, f: char -> bool)
    requires AllChars(p, f)
    ensures forall q | q in Segments(p) :: AllChars(q, f)
  {
    PiecesChars(p, f);
    NonEmptyIn(Pieces(p));
  }

  lemma {:induction false} PiecesChars(s: string, f: char -> bool)
    requires AllChars(s, f)
    ensures forall q | q in Pieces(s) :: AllChars(q, f)
    decreases |s|
  {
    var i := IndexOf(s, '/');
    if i >= 0 {
      SliceChars(s, i + 1, |s|, f);
      SliceChars(s, 0, i, f);
      PiecesChars(s[i + 1..], f);
      assert Pieces(s) == [s[..i]] + Pieces(s[i + 1..]);
    }
  }

  /** Segments are non-empty and contain no slash. */
  lemma SegmentsSlashFree(p: string)
    ensures forall q | q in Segments(p) :: q != "" && '/' !in q
  {
    PiecesSlashFree(p);
    NonEmptyIn(Pieces(p));
  }

  lemma {:induction false} PiecesSlashFree(s: string)
    ensures forall q | q in Pieces(s) :: '/' !in q
    decreases |s|
  {
    var i := IndexOf(s, '/');
    if i >= 0 {
      PiecesSlashFree(s[i + 1..]);
      assert Pieces(s) == [s[..i]] + Pieces(s[i + 1..]);
    }
  }

  lemma {:induction false} NonEmptyIn(ps: seq<string>)
    ensures forall q | q in NonEmpty(ps) :: q in ps && q != ""
  {
    if ps != [] {
      NonEmptyIn(ps[1..]);
      assert forall q | q in ps[1..] :: q in ps;
    }
  }

  lemma {:induction false} RemoveUnsafeChars(s: string, f: char -> bool)
    requires AllChars(s, f)
    ensures AllChars(RemoveUnsafe(s), f)
  {
    if s != [] {
      SliceChars(s, 1, |s|, f);
      RemoveUnsafeChars(s[1..], f);
      var h: string := if IsUnsafe(s[0]) then [] else [s[0]];
      ConcatChars(h, RemoveUnsafe(s[1..]), f);
    }
  }

  lemma {:induction false} RemoveUnsafeConcat(a: string, b: string)
    ensures RemoveUnsafe(a + b) == RemoveUnsafe(a) + RemoveUnsafe(b)
  {
    if a == [] {
      assert a + b == b;
    } else {
      var h: string := if IsUnsafe(a[0]) then [] else [a[0]];
      assert (a + b)[0] == a[0];
      assert (a + b)[1..] == a[1..] + b;
      assert RemoveUnsafe(a + b) == h + RemoveUnsafe(a[1..] + b);
      RemoveUnsafeConcat(a[1..], b);
      assert h + (RemoveUnsafe(a[1..]) + RemoveUnsafe(b)) == (h + RemoveUnsafe(a[1..])) + RemoveUnsafe(b);
    }
  }

  lemma {:induction false} RemoveUnsafeSafe(s: string)
    requires AllChars(s, SafeChar)
    ensures RemoveUnsafe(s) == s
  {
    if s != [] {
      SliceChars(s, 1, |s|, SafeChar);
      RemoveUnsafeSafe(s[1..]);
    }
  }

  lemma {:induction false} NetlocEndAt(netloc: string, rest: string)
    requires forall k | 0 <= k < |netloc| :: !IsNetlocDelimiter(netloc[k])
    requires rest != [] && IsNetlocDelimiter(rest[0])
    ensures NetlocEnd(netloc + rest) == |netloc|
  {
    if netloc != [] {
      assert (netloc + rest)[0] == netloc[0];
      assert (netloc + rest)[1..] == netloc[1..] + rest;
      NetlocEndAt(netloc[1..], rest);
    } else {
      assert netloc + rest == rest;
    }
  }

  /** `urlparse` leaves a path with no `?`, `#` or `;` as it is. */
  lemma PathPartPlain(scheme: string, p: string)
    requires PlainText(p)
    ensures PathPart(scheme, p) == p
  {
    Excluded(p, PlainChar, '#');
    Excluded(p, PlainChar, '?');
    Excluded(p, PlainChar, ';');
    BeforeFirstAbsent(p, '#');
    BeforeFirstAbsent(p, '?');
    var j := LastIndexOf(p, '/');
    NotInSlice(p, ';', j + 1);
    BeforeFirstAbsent(p[j + 1..], ';');
    assert p[..j + 1] + p[j + 1..] == p;
  }

  /** The rooted path of safe segments without `?` or `#`, whose last segment has no `;`, is kept whole. */
  lemma PathPartRooted(scheme: string, ps: seq<string>)
    requires ps != [] && forall q | q in ps :: AllChars(q, PathChar) && '/' !in q
    requires ';' !in ps[|ps| - 1]
    ensures PathPart(scheme, Rooted(ps)) == Rooted(ps)
  {
    var p := Rooted(ps);
    RootedNoMarks(ps);
    BeforeFirstAbsent(p, '#');
    BeforeFirstAbsent(p, '?');
    var last := ps[|ps| - 1];
    assert last in ps;
    CutParamsLast(RootedInit(ps), last);
  }

  /** The rooted path of all segments but the last (empty when there is one segment). */
  function RootedInit(ps: seq<string>): string
    requires ps != []
  {
    if |ps| == 1 then "" else "/" + JoinWithSlash(ps[..|ps| - 1])
  }

  /** The rooted path of segments without `?` or `#` has none either, and ends with its last segment. */
  lemma RootedNoMarks(ps: seq<string>)
    requires ps != [] && forall q | q in ps :: AllChars(q, PathChar)
    ensures '#' !in Rooted(ps) && '?' !in Rooted(ps)
    ensures Rooted(ps) == RootedInit(ps) + "/" + ps[|ps| - 1]
  {
    var p := Rooted(ps);
    JoinChars(ps, PathChar);
    ConcatChars("/", JoinWithSlash(ps), PathChar);
    Excluded(p, PathChar, '#');
    Excluded(p, PathChar, '?');
    RootedSplitLast(ps);
  }

  lemma RootedSplitLast(ps: seq<string>)
    requires ps != []
    ensures Rooted(ps) == RootedInit(ps) + "/" + ps[|ps| - 1]
  {
    if |ps| >= 2 {
      JoinSplitLast(ps);
      ConcatAssoc("/", JoinWithSlash(ps[..|ps| - 1]) + "/", ps[|ps| - 1]);
    } else {
      assert JoinWithSlash(ps) == ps[0];
      assert "" + "/" + ps[0] == "/" + ps[0];
    }
  }

  lemma CutParamsLast(a: string, x: string)
    requires '/' !in x && ';' !in x
    ensures CutParams(a + "/" + x) == a + "/" + x
  {
    var p := a + "/" + x;
    assert p[|a| + 1..] == x;
    LastIndexOfIs(p, '/', |a|);
    BeforeFirstAbsent(x, ';');
    assert p[..|a| + 1] == a + "/";
  }

  lemma LastIndexOfIs(s: string, c: char, j: int)
    requires 0 <= j < |s| && s[j] == c && c !in s[j + 1..]
    ensures LastIndexOf(s, c) == j
    decreases |s|
  {
    if j < |s| - 1 {
      assert s[|s| - 1] == s[j + 1..][|s| - 2 - j];
      assert s[..|s| - 1][j + 1..] == s[j + 1..][..|s| - 2 - j];
      LastIndexOfIs(s[..|s| - 1], c, j);
    }
  }

  /** The one-pass cleaning performs the two steps of `urlsplit`. */
  lemma {:induction false} CleanedSteps(s: string)
    ensures Scrub(s, true) == RemoveUnsafe(LStripControl(s))
    decreases |s|
  {
    if s != [] && s[0] <= ' ' {
      CleanedSteps(s[1..]);
    } else {
      ScrubSafe(s);
    }
  }

  lemma {:induction false} ScrubSafe(s: string)
    ensures Scrub(s, false) == RemoveUnsafe(s)
  {
    if s != [] {
      ScrubSafe(s[1..]);
    }
  }

  /** `Cleaned` of a string that begins with a letter and whose first part has no unsafe character. */
  lemma CleanedConcat(head: string, tail: string)
    requires head != "" && IsAsciiLetter(head[0]) && AllChars(head, SafeChar)
    ensures Cleaned(head + tail) == head + RemoveUnsafe(tail)
  {
    CleanedSteps(head + tail);
    assert (head + tail)[0] == head[0];
    assert LStripControl(head + tail) == head + tail;
    RemoveUnsafeConcat(head, tail);
    RemoveUnsafeSafe(head);
  }

  /** A well-formed scheme followed by a colon is recognised as the scheme. */
  lemma SchemeEndAt(scheme: string, tail: string, u: string)
    requires WellFormedScheme(scheme) && u == scheme + ":" + tail
    ensures SchemeEnd(u) == |scheme|
    ensures SchemeOf(u) == scheme
    ensures AfterScheme(u) == tail
  {
    Excluded(scheme, IsSchemeChar, ':');
    assert u[..|scheme|] == scheme;
    IndexOfIs(u, ':', |scheme|);
    assert u[0] == scheme[0];
  }

  /** After `//`, a network location without delimiters is read whole, up to a rooted path. */
  lemma AuthorityAt(netloc: string, path: string)
    requires forall k | 0 <= k < |netloc| :: !IsNetlocDelimiter(netloc[k])
    requires path != "" && path[0] == '/'
    ensures NetlocOf("//" + netloc + path) == netloc
    ensures PathSource("//" + netloc + path) == path
  {
    var rest := "//" + netloc + path;
    assert rest[2..] == netloc + path;
    NetlocEndAt(netloc, path);
    assert (netloc + path)[..|netloc|] == netloc;
    assert rest[2 + |netloc|..] == path;
  }

  /** An absolute URL `scheme://netloc/path` parses back into its scheme and network location;
      its path is the given one with control characters, query, fragment and parameters removed. */
  lemma {:induction false} ParseAbsolute(scheme: string, netloc: string, path: string)
    requires WellFormedScheme(scheme)
    requires AllChars(netloc, NetlocChar)
    requires path != "" && path[0] == '/'
    ensures UrlParse(scheme + "://" + netloc + path) == ParsedUrl(scheme, netloc, PathPart(scheme, RemoveUnsafe(path)))
  {
    var head := scheme + "://" + netloc;
    assert scheme + "://" + netloc + path == head + path;
    AbsoluteHeadSafe(scheme, netloc);
    CleanedConcat(head, path);
    var rp := RemoveUnsafe(path);
    RemoveUnsafeKeepsSlash(path);
    var u := head + rp;
    var rest := "//" + netloc + rp;
    assert u == scheme + ":" + rest;
    SchemeEndAt(scheme, rest, u);
    AuthorityAt(netloc, rp);
    var s := scheme + "://" + netloc + path;
    ParseOf(s, u, rest);
  }

  lemma ParseOf(s: string, u: string, rest: string)
    requires Cleaned(s) == u && AfterScheme(u) == rest
    ensures UrlParse(s) == ParsedUrl(SchemeOf(u), NetlocOf(rest), PathPart(SchemeOf(u), PathSource(rest)))
  {
  }

  lemma AbsoluteHeadSafe(scheme: string, netloc: string)
    requires WellFormedScheme(scheme)
    requires AllChars(netloc, NetlocChar)
    ensures (scheme + "://" + netloc)[0] == scheme[0]
    ensures AllChars(scheme + "://" + netloc, SafeChar)
  {
    var head := scheme + "://" + netloc;
    forall i | 0 <= i < |head| ensures SafeChar(head[i]) {
      if i < |scheme| {
        assert head[i] == scheme[i] && IsSchemeChar(scheme[i]);
      } else if i >= |scheme| + 3 {
        assert head[i] == netloc[i - |scheme| - 3] && NetlocChar(netloc[i - |scheme| - 3]);
      }
    }
  }

  lemma RemoveUnsafeKeepsSlash(path: string)
    requires path != "" && path[0] == '/'
    ensures RemoveUnsafe(path) != "" && RemoveUnsafe(path)[0] == '/'
  {
  }

  /** A path that starts with a single slash parses as a path: no scheme, no network location. */
  lemma ParseRooted(p: string)
    requires p != "" && p[0] == '/' && (|p| == 1 || (p[1] != '/' && SafeChar(p[1])))
    ensures UrlParse(p) == ParsedUrl("", "", PathPart("", RemoveUnsafe(p)))
  {
    CleanedSteps(p);
    RootedClean(p);
    ParseOf(p, RemoveUnsafe(p), RemoveUnsafe(p));
  }

  lemma RootedClean(p: string)
    requires p != "" && p[0] == '/' && (|p| == 1 || (p[1] != '/' && SafeChar(p[1])))
    ensures LStripControl(p) == p
    ensures AfterScheme(RemoveUnsafe(p)) == RemoveUnsafe(p)
    ensures !HasAuthority(RemoveUnsafe(p))
  {
    var u := RemoveUnsafe(p);
    assert u[0] == '/';
    if |p| >= 2 {
      assert p[1..][0] == p[1];
      assert RemoveUnsafe(p[1..]) == [p[1]] + RemoveUnsafe(p[2..]);
      assert u[1] == p[1];
    }
    assert SchemeEnd(u) == -1;
  }

  /** On plain text the parsed path is a final piece of the input. */
  lemma ParsePlain(s: string)
    requires PlainText(s)
    ensures IsSuffix(UrlParse(s).path, s)
  {
    CleanedSteps(s);
    var l := LStripControl(s);
    SuffixChars(l, s, PlainChar);
    forall i | 0 <= i < |l| ensures SafeChar(l[i]) { assert PlainChar(l[i]); }
    RemoveUnsafeSafe(l);
    var rest := AfterScheme(l);
    var t := PathSource(rest);
    SuffixTrans(rest, l, s);
    SuffixTrans(t, rest, s);
    SuffixChars(t, s, PlainChar);
    PathPartPlain(SchemeOf(l), t);
  }

  /** What `urlparse` reports is clean: a well-formed scheme or none, a network location without
      delimiters or control characters, and a path without TAB, CR, LF, `?` or `#`. */
  lemma ParsedChars(s: string)
    ensures UrlParse(s).scheme == "" || WellFormedScheme(UrlParse(s).scheme)
    ensures AllChars(UrlParse(s).netloc, NetlocChar)
    ensures AllChars(UrlParse(s).path, PathChar)
  {
    var u := Cleaned(s);
    var rest := AfterScheme(u);
    var t := PathSource(rest);
    SuffixChars(rest, u, SafeChar);
    SuffixChars(t, rest, SafeChar);
    var i := SchemeEnd(u);
    if i >= 0 {
      SchemeWellFormed(u[..i]);
    }
    if HasAuthority(rest) {
      var n := NetlocOf(rest);
      SliceChars(rest, 2, |rest|, SafeChar);
      SliceChars(rest[2..], 0, NetlocEnd(rest[2..]), SafeChar);
      forall k | 0 <= k < |n| ensures NetlocChar(n[k]) { assert SafeChar(n[k]); }
    }
    var a := BeforeFirst(t, '#');
    BeforeFirstChars(t, '#', SafeChar);
    var b := BeforeFirst(a, '?');
    BeforeFirstChars(a, '?', SafeChar);
    Excluded2(a, '#', '?', b);
    assert AllChars(b, PathChar) by {
      forall k | 0 <= k < |b| ensures PathChar(b[k]) {
        assert SafeChar(b[k]);
        assert b[k] in b;
      }
    }
    CutParamsChars(b);
  }

  lemma Excluded2(a: string, c: char, d: char, b: string)
    requires c !in a && b == BeforeFirst(a, d)
    ensures c !in b
  {
    var i := IndexOf(a, d);
    if i >= 0 {
      forall k | 0 <= k < |b| ensures b[k] != c {
        assert b[k] == a[k];
      }
    }
  }

  lemma CutParamsChars(b: string)
    requires AllChars(b, PathChar)
    ensures AllChars(CutParams(b), PathChar)
  {
    var j := LastIndexOf(b, '/');
    SliceChars(b, 0, j + 1, PathChar);
    SliceChars(b, j + 1, |b|, PathChar);
    BeforeFirstChars(b[j + 1..], ';', PathChar);
    ConcatChars(b[..j + 1], BeforeFirst(b[j + 1..], ';'), PathChar);
  }

  /** A scheme that `urlsplit` accepts, once lower-cased, is well formed. */
  lemma SchemeWellFormed(w: string)
    requires w != "" && IsAsciiLetter(w[0]) && AllChars(w, IsSchemeChar)
    ensures WellFormedScheme(Lower(w))
  {
    var l := Lower(w);
    forall i | 0 <= i < |l| ensures IsSchemeChar(l[i]) && LowerChar(l[i]) == l[i] {
      assert IsSchemeChar(w[i]);
    }
    assert Lower(l) == l;
  }
}
