/** The URL grammar `Link` accepts (`re_generic_url`), the decomposition
    `urlsplit` gives of an accepted URL, the normalisation applied before
    matching, and the short identifier derived from a URL (`hash_url`).

    The pattern is `^(?:http|ftp)s?://` + host + `(?::\d+)?` +
    `(?:/?|[/?]\S+)$`, matched case-insensitively, where the host is a
    dotted domain, `localhost` or a dotted quad.  `Accepts` recognises the
    pattern with `$` meaning "end of string"; `AcceptsAsWritten` adds
    Python's reading of `$`, which also matches just before a final
    newline. */
module UrlGrammar {
  import opened Results
  import opened PyStr

  // ---------------------------------------------------------------------
  // Character classes used by the pattern
  // ---------------------------------------------------------------------

  predicate NotAlpha(c: char) { !IsAlpha(c) }
  predicate NotDigit(c: char) { !IsDigit(c) }

  /** Characters a host can be made of: `[A-Z0-9.-]` under `re.I`. */
  predicate IsHostChar(c: char) { IsAlnum(c) || c == '.' || c == '-' }
  predicate NotHostChar(c: char) { !IsHostChar(c) }

  /** `[A-Z0-9-]` under `re.I`. */
  predicate IsLabelChar(c: char) { IsAlnum(c) || c == '-' }

  predicate AllLabelChars(s: string) {
    forall i :: 0 <= i < |s| ==> IsLabelChar(s[i])
  }

  predicate AllDigits(s: string) {
    forall i :: 0 <= i < |s| ==> IsDigit(s[i])
  }

  // ---------------------------------------------------------------------
  // Scheme
  // ---------------------------------------------------------------------

  /** `(?:http|ftp)s?` under `re.I`, once lower-cased. */
  predicate IsSchemeName(name: string) {
    name == "http" || name == "https" || name == "ftp" || name == "ftps"
  }

  /** The leading run of letters, where the scheme name must be. */
  function SchemeEnd(s: string): (n: nat)
    ensures n <= |s|
  {
    RunEnd(s, 0, NotAlpha)
  }

  /** The length of the `(?:http|ftp)s?://` prefix, or 0 when `s` has none.
      The scheme name is made of letters and followed by `:`, so it is
      exactly the leading run of letters. */
  function SchemeLen(s: string): (k: nat)
    ensures k == 0 || (k == SchemeEnd(s) + 3 && k <= |s| && s[k - 3..k] == "://")
  {
    var n := SchemeEnd(s);
    if IsSchemeName(Lower(s[..n])) && StartsWith(s[n..], "://") then n + 3 else 0
  }

  // ---------------------------------------------------------------------
  // Host
  // ---------------------------------------------------------------------

  /** `[A-Z0-9](?:[A-Z0-9-]{0,61}[A-Z0-9])?`: one domain label. */
  predicate IsLabel(l: string) {
    1 <= |l| <= 63 && IsAlnum(l[0]) && IsAlnum(l[|l| - 1]) && AllLabelChars(l)
  }

  /** `[A-Z]{2,6}|[A-Z0-9-]{2,}`: the last label; the first alternative is
      contained in the second. */
  predicate IsTld(t: string) {
    |t| >= 2 && AllLabelChars(t)
  }

  predicate AllLabels(ls: seq<string>) {
    forall i :: 0 <= i < |ls| ==> IsLabel(ls[i])
  }

  /** `(?:label\.)+tld\.?`, read off the pieces between dots: labels, then
      the top-level label, then an empty piece when a trailing dot is
      present. */
  predicate IsDomain(h: string) {
    var parts := Split(h, ".");
    var n := |parts|;
    if parts[n - 1] == "" then
      n >= 3 && AllLabels(parts[..n - 2]) && IsTld(parts[n - 2])
    else
      n >= 2 && AllLabels(parts[..n - 1]) && IsTld(parts[n - 1])
  }

  /** `\d{1,3}\.\d{1,3}\.\d{1,3}\.\d{1,3}`. */
  predicate IsIPv4(h: string) {
    var parts := Split(h, ".");
    |parts| == 4 && forall i :: 0 <= i < 4 ==> 1 <= |parts[i]| <= 3 && AllDigits(parts[i])
  }

  /** Group 1 of the pattern. */
  predicate IsHost(h: string) {
    IsDomain(h) || Lower(h) == "localhost" || IsIPv4(h)
  }

  // ---------------------------------------------------------------------
  // urlsplit, and the pattern read off the pieces
  // ---------------------------------------------------------------------

  /** The pieces of a URL, as written.  `urlsplit` exposes the scheme and
      host lower-cased (`Scheme`, `Hostname`) and an absent query or
      fragment as the empty string. */
  datatype Url = Url(
    scheme: string,
    host: string,
    port: Option<string>,
    path: string,
    query: Option<string>,
    fragment: Option<string>)
  {
    function Scheme(): string { Lower(scheme) }
    function Hostname(): string { Lower(host) }
    function Query(): string { query.GetOr("") }
    function Fragment(): string { fragment.GetOr("") }
  }

  /** `mark + x` when the piece is present. */
  function Marked(mark: char, piece: Option<string>): string {
    match piece
    case None => ""
    case Some(x) => [mark] + x
  }

  /** What follows the host and port. */
  function TailText(u: Url): string {
    u.path + Marked('?', u.query) + Marked('#', u.fragment)
  }

  function Compose(u: Url): string {
    u.scheme + "://" + u.host + Marked(':', u.port) + TailText(u)
  }

  /** `(?:/?|[/?]\S+)` followed by the end of the string. */
  predicate IsTail(t: string) {
    t == "" || t == "/" || (|t| >= 2 && (t[0] == '/' || t[0] == '?') && NoSpace(t[1..]))
  }

  /** Everything the pattern asks of the pieces except the host grammar:
      a `(?:http|ftp)s?` scheme, host characters, `(?::\d+)?`, and a tail
      matching `(?:/?|[/?]\S+)$`; the path and query are cut where
      `urlsplit` cuts them. */
  predicate Shaped(u: Url) {
    && IsSchemeName(Lower(u.scheme))
    && (forall i :: 0 <= i < |u.host| ==> IsHostChar(u.host[i]))
    && (u.port.Some? ==> |u.port.value| > 0 && AllDigits(u.port.value))
    && '#' !in u.path && '?' !in u.path
    && (u.query.Some? ==> '#' !in u.query.value)
    && IsTail(TailText(u))
  }

  predicate WellFormed(u: Url) {
    Shaped(u) && IsHost(u.host)
  }

  /** The index of the first `c` in `s`, or `|s|`. */
  function IndexOf(s: string, c: char): (i: nat)
    ensures i <= |s| && c !in s[..i]
    ensures i < |s| ==> s[i] == c
    decreases |s|
  {
    if s == [] || s[0] == c then 0
    else
      assert s[1..][..IndexOf(s[1..], c)] == s[1..1 + IndexOf(s[1..], c)];
      1 + IndexOf(s[1..], c)
  }

  /** The first `c` is where it is. */
  lemma {:induction false} IndexOfAt(s: string, c: char, i: nat)
    requires i <= |s| && c !in s[..i] && (i < |s| ==> s[i] == c)
    ensures IndexOf(s, c) == i
    decreases |s|
  {
    if s != [] && s[0] != c {
      assert s[0] == s[..i][0];
      assert s[1..][..i - 1] == s[1..i];
      IndexOfAt(s[1..], c, i - 1);
    }
  }

  /** `urlsplit` on what follows the netloc: the fragment is cut at the
      first `#`, then the query at the first `?` of what is left. */
  function SplitTail(t: string): (string, Option<string>, Option<string>) {
    var h := IndexOf(t, '#');
    var pre := t[..h];
    var q := IndexOf(pre, '?');
    (pre[..q], if q < |pre| then Some(pre[q + 1..]) else None,
     if h < |t| then Some(t[h + 1..]) else None)
  }

  /** The cut the pattern makes after the scheme: the host is the longest
      run of host characters (a shorter one would leave a host character
      where only `:`, `/`, `?` or the end may come), the port the longest
      run of digits after a `:` (giving one back would leave a digit where
      the tail must start with `/` or `?`), and the rest is split as
      `urlsplit` splits it. */
  function Decompose(s: string): Url
    requires SchemeLen(s) > 0
  {
    var n := SchemeEnd(s);
    var e := HostEnd(s, n + 3);
    Assemble(s, n, e, PortLen(s, e))
  }

  /** Where the host starting at `k` ends: the longest run of host
      characters. */
  function HostEnd(s: string, k: nat): (e: nat)
    requires k <= |s|
    ensures k <= e <= |s|
  {
    RunEnd(s, k, NotHostChar)
  }

  /** The length of a `:` at `e` and the longest run of digits after it,
      or 0 when there is no `:` at `e`. */
  function PortLen(s: string, e: nat): (d: nat)
    requires e <= |s|
    ensures e + d <= |s|
    ensures d > 0 ==> s[e] == ':'
  {
    if e < |s| && s[e] == ':' then RunEnd(s, e + 1, NotDigit) - e else 0
  }

  /** The pieces of `s` for a scheme of length `n`, a host ending at `e`
      and a port mark and digits of length `d` after it. */
  function Assemble(s: string, n: nat, e: nat, d: nat): Url
    requires n + 3 <= e && e + d <= |s|
  {
    var (path, query, fragment) := SplitTail(s[e + d..]);
    Url(s[..n], s[n + 3..e], if d > 0 then Some(s[e + 1..e + d]) else None, path, query, fragment)
  }

  /** The whole pattern, with `$` read as "end of string": a scheme, and
      pieces of the shape above around a host of the grammar. */
  predicate Accepts(s: string) {
    SchemeLen(s) > 0 && WellFormed(Decompose(s))
  }

  /** The pattern as Python matches it: `$` also matches right before a
      final `\n`. */
  predicate AcceptsAsWritten(s: string) {
    Accepts(s) || (|s| > 0 && s[|s| - 1] == '\n' && Accepts(s[..|s| - 1]))
  }

  lemma SplitTailRoundTrip(t: string)
    ensures var (path, query, fragment) := SplitTail(t);
      && '#' !in path && '?' !in path
      && (query.Some? ==> '#' !in query.value)
      && path + Marked('?', query) + Marked('#', fragment) == t
  {
    var h := IndexOf(t, '#');
    var pre := t[..h];
    var q := IndexOf(pre, '?');
    assert pre[..q] + pre[q..] == pre;
    assert pre + t[h..] == t;
    if q < |pre| {
      assert pre[q..] == ['?'] + pre[q + 1..];
    }
    if h < |t| {
      assert t[h..] == ['#'] + t[h + 1..];
    }
  }

  lemma TailOfCompose(path: string, query: Option<string>, fragment: Option<string>)
    requires '#' !in path && '?' !in path
    requires query.Some? ==> '#' !in query.value
    ensures SplitTail(path + Marked('?', query) + Marked('#', fragment)) == (path, query, fragment)
  {
    var pq := path + Marked('?', query);
    var t := pq + Marked('#', fragment);
    assert '#' !in pq;
    IndexOfAt(t, '#', |pq|);
    assert t[..|pq|] == pq;
    IndexOfAt(pq, '?', |path|);
    assert pq[..|path|] == path;
    if query.Some? {
      assert pq[|path| + 1..] == query.value;
    }
    if fragment.Some? {
      assert t[|pq| + 1..] == fragment.value;
    }
  }

  lemma SliceCons(s: string, i: nat, j: nat)
    requires i < j <= |s|
    ensures s[i..j] == [s[i]] + s[i + 1..j]
  {
  }

  lemma AssembleRoundTrip(s: string, n: nat, e: nat, d: nat)
    requires n + 3 <= e && e + d <= |s|
    requires s[n..n + 3] == "://"
    requires d > 0 ==> s[e] == ':'
    ensures Compose(Assemble(s, n, e, d)) == s
  {
    var t := s[e + d..];
    SplitTailRoundTrip(t);
    var u := Assemble(s, n, e, d);
    assert TailText(u) == t;
    assert Marked(':', u.port) == s[e..e + d] by {
      if d > 0 { SliceCons(s, e, e + d); }
    }
    Reassemble(s, n, e, d);
  }

  lemma Reassemble(s: string, n: nat, e: nat, d: nat)
    requires n + 3 <= e && e + d <= |s|
    requires s[n..n + 3] == "://"
    ensures s[..n] + "://" + s[n + 3..e] + s[e..e + d] + s[e + d..] == s
  {
    assert s[..n] + "://" == s[..n + 3];
    assert s[..n + 3] + s[n + 3..e] == s[..e];
    assert s[..e] + s[e..e + d] == s[..e + d];
  }

  /** Cutting a URL into pieces loses nothing. */
  lemma DecomposeRoundTrip(s: string)
    requires SchemeLen(s) > 0
    ensures Compose(Decompose(s)) == s
  {
    var n := SchemeEnd(s);
    var e := HostEnd(s, n + 3);
    var d := PortLen(s, e);
    AssembleRoundTrip(s, n, e, d);
  }

  /** The text `(?:label\.)+tld\.?` produces from its labels, top-level
      label and optional trailing dot. */
  function DomainText(labels: seq<string>, tld: string, dot: bool): string {
    Join(labels + [tld], ".") + (if dot then "." else "")
  }

  lemma PiecesLackDot(ps: seq<string>)
    requires forall i :: 0 <= i < |ps| ==> AllLabelChars(ps[i])
    ensures forall i :: 0 <= i < |ps| ==> !Contains(ps[i], ".")
  {
    forall i | 0 <= i < |ps| ensures !Contains(ps[i], ".") {
      ContainsChar(ps[i], '.');
      assert '.' !in ps[i];
    }
  }

  lemma DomainTextSplit(labels: seq<string>, tld: string, dot: bool)
    requires |labels| >= 1 && AllLabels(labels) && IsTld(tld)
    ensures Split(DomainText(labels, tld, dot), ".") == labels + [tld] + (if dot then [""] else [])
  {
    var core := labels + [tld];
    var parts := core + (if dot then [""] else []);
    if dot {
      JoinSnoc(core, "", ".");
      assert Join(core, ".") + "." + "" == Join(core, ".") + ".";
    } else {
      assert parts == core;
    }
    assert Join(parts, ".") == DomainText(labels, tld, dot);
    assert forall i :: 0 <= i < |parts| ==> AllLabelChars(parts[i]) by {
      forall i | 0 <= i < |parts| ensures AllLabelChars(parts[i]) {
        if i < |labels| {
          assert parts[i] == labels[i];
          assert IsLabel(labels[i]);
        }
      }
    }
    PiecesLackDot(parts);
    SplitJoin(parts, ".");
  }

  /** Every text of the domain alternative is recognised as a domain. */
  lemma DomainTextIsDomain(labels: seq<string>, tld: string, dot: bool)
    requires |labels| >= 1 && AllLabels(labels) && IsTld(tld)
    ensures IsDomain(DomainText(labels, tld, dot))
  {
    DomainTextSplit(labels, tld, dot);
    var parts := labels + [tld] + (if dot then [""] else []);
    var n := |parts|;
    if dot {
      assert parts[..n - 2] == labels;
    } else {
      assert parts[..n - 1] == labels;
    }
  }

  /** Every domain is a text of the domain alternative. */
  lemma DomainPieces(h: string) returns (labels: seq<string>, tld: string, dot: bool)
    requires IsDomain(h)
    ensures |labels| >= 1 && AllLabels(labels) && IsTld(tld)
    ensures h == DomainText(labels, tld, dot)
  {
    var parts := Split(h, ".");
    var n := |parts|;
    JoinSplit(h, ".");
    dot := parts[n - 1] == "";
    if dot {
      var core := parts[..n - 1];
      labels := parts[..n - 2];
      tld := parts[n - 2];
      assert core == labels + [tld];
      assert parts == core + [""];
      JoinSnoc(core, "", ".");
      assert h == Join(core, ".") + "." + "";
    } else {
      labels := parts[..n - 1];
      tld := parts[n - 1];
      assert parts == labels + [tld];
      assert h == Join(parts, ".") + "";
    }
  }

  lemma SchemeNameLetters(name: string)
    requires IsSchemeName(Lower(name))
    ensures |name| >= 3 && forall i :: 0 <= i < |name| ==> IsAlpha(name[i])
  {
    var l := Lower(name);
    forall i | 0 <= i < |name| ensures IsAlpha(name[i]) {
      assert IsLower(l[i]);
    }
  }

  /** Where the pieces sit in a composed URL. */
  lemma ComposeLayout(u: Url, s: string, n: nat, e: nat, d: nat)
    requires s == Compose(u) && n == |u.scheme| && e == n + 3 + |u.host| && d == |Marked(':', u.port)|
    ensures e + d <= |s|
    ensures s[..n] == u.scheme && s[n..n + 3] == "://" && s[n + 3..e] == u.host
    ensures s[e..e + d] == Marked(':', u.port) && s[e + d..] == TailText(u)
  {
  }

  /** Putting pieces of the right shape together and cutting the result
      gives the pieces back. */
  lemma ComposeRoundTrip(u: Url)
    requires Shaped(u)
    ensures SchemeLen(Compose(u)) > 0
    ensures Decompose(Compose(u)) == u
  {
    ComposeSchemeEnd(u);
    ComposeHostEnd(u);
    ComposePortLen(u);
    DecomposeOfCompose(u);
  }

  lemma DecomposeOfCompose(u: Url)
    requires '#' !in u.path && '?' !in u.path
    requires u.query.Some? ==> '#' !in u.query.value
    requires SchemeLen(Compose(u)) > 0 && SchemeEnd(Compose(u)) == |u.scheme|
    requires HostEnd(Compose(u), |u.scheme| + 3) == |u.scheme| + 3 + |u.host|
    requires PortLen(Compose(u), |u.scheme| + 3 + |u.host|) == |Marked(':', u.port)|
    ensures Decompose(Compose(u)) == u
  {
    var s := Compose(u);
    var n := |u.scheme|;
    var e := n + 3 + |u.host|;
    var d := |Marked(':', u.port)|;
    AssembleOfCompose(u, s, n, e, d);
    DecomposeAt(s, n, e, d);
  }

  lemma DecomposeAt(s: string, n: nat, e: nat, d: nat)
    requires SchemeLen(s) > 0
    requires SchemeEnd(s) == n && HostEnd(s, n + 3) == e && PortLen(s, e) == d
    ensures e + d <= |s| && Decompose(s) == Assemble(s, n, e, d)
  {
  }

  lemma ComposeSchemeEnd(u: Url)
    requires IsSchemeName(Lower(u.scheme))
    ensures SchemeEnd(Compose(u)) == |u.scheme|
    ensures SchemeLen(Compose(u)) == |u.scheme| + 3
  {
    var s := Compose(u);
    var n := |u.scheme|;
    ComposeLayout(u, s, n, n + 3 + |u.host|, |Marked(':', u.port)|);
    SchemeNameLetters(u.scheme);
    RunEndAt(s, 0, NotAlpha, n);
    assert s[n..][..3] == "://";
  }

  lemma ComposeHostEnd(u: Url)
    requires Shaped(u)
    ensures HostEnd(Compose(u), |u.scheme| + 3) == |u.scheme| + 3 + |u.host|
  {
    var s := Compose(u);
    var e := |u.scheme| + 3 + |u.host|;
    var pt := Marked(':', u.port);
    var t := TailText(u);
    ComposeLayout(u, s, |u.scheme|, e, |pt|);
    assert t == "" || t[0] == '/' || t[0] == '?';
    assert e == |s| || s[e] == ':' || s[e] == '/' || s[e] == '?' by {
      if |pt| > 0 {
        assert s[e] == pt[0];
      } else if e < |s| {
        assert s[e] == t[0];
      }
    }
    RunEndAt(s, |u.scheme| + 3, NotHostChar, e);
  }

  lemma ComposePortLen(u: Url)
    requires Shaped(u)
    ensures |u.scheme| + 3 + |u.host| <= |Compose(u)|
    ensures PortLen(Compose(u), |u.scheme| + 3 + |u.host|) == |Marked(':', u.port)|
  {
    var s := Compose(u);
    var e := |u.scheme| + 3 + |u.host|;
    var d := |Marked(':', u.port)|;
    var t := TailText(u);
    ComposeLayout(u, s, |u.scheme|, e, d);
    assert t == "" || t[0] == '/' || t[0] == '?';
    if u.port.Some? {
      assert s[e + 1..e + d] == u.port.value;
      assert e + d == |s| || s[e + d] == t[0];
      RunEndAt(s, e + 1, NotDigit, e + d);
    } else if e < |s| {
      assert s[e] == t[0];
    }
  }

  lemma AssembleOfCompose(u: Url, s: string, n: nat, e: nat, d: nat)
    requires '#' !in u.path && '?' !in u.path
    requires u.query.Some? ==> '#' !in u.query.value
    requires s == Compose(u) && n == |u.scheme| && e == n + 3 + |u.host| && d == |Marked(':', u.port)|
    ensures e + d <= |s| && Assemble(s, n, e, d) == u
  {
    ComposeLayout(u, s, n, e, d);
    TailOfCompose(u.path, u.query, u.fragment);
    var port := if d > 0 then Some(s[e + 1..e + d]) else None;
    assert port == u.port by {
      if u.port.Some? {
        assert s[e + 1..e + d] == s[e..e + d][1..];
      }
    }
    assert SplitTail(s[e + d..]) == (u.path, u.query, u.fragment);
  }

  /** `urlsplit` of an accepted URL gives well-formed pieces that put back
      together give the URL; well-formed pieces put together give an
      accepted URL that `urlsplit` cuts back into the same pieces. */
  lemma AcceptsIffWellFormed(s: string, u: Url)
    ensures Accepts(s) ==> WellFormed(Decompose(s)) && Compose(Decompose(s)) == s
    ensures WellFormed(u) ==> Accepts(Compose(u)) && Decompose(Compose(u)) == u
  {
    if Accepts(s) {
      DecomposeRoundTrip(s);
    }
    if WellFormed(u) {
      ComposeRoundTrip(u);
    }
  }

  // ---------------------------------------------------------------------
  // Normalisation and the as-written discrepancy
  // ---------------------------------------------------------------------

  /** `url.strip().rstrip('/')`, applied by `Link` before matching: the
      trimmed text up to its trailing slashes, which are all that is cut. */
  function Normalize(raw: string): (url: string)
    ensures |url| <= |raw|
    ensures url == [] || url[|url| - 1] != '/'
    ensures |url| <= |Strip(raw)| && url == Strip(raw)[..|url|]
    ensures forall i :: |url| <= i < |Strip(raw)| ==> Strip(raw)[i] == '/'
  {
    RStripChar(Strip(raw), '/')
  }

  lemma NoSpaceConcat(a: string, b: string)
    requires NoSpace(a) && NoSpace(b)
    ensures NoSpace(a + b)
  {
    assert forall i :: |a| <= i < |a + b| ==> (a + b)[i] == b[i - |a|];
  }

  /** Pieces of the right shape put together contain no whitespace and
      start with a letter. */
  lemma ShapedNoSpace(u: Url)
    requires Shaped(u)
    ensures NoSpace(Compose(u))
    ensures IsAlpha(Compose(u)[0])
  {
    SchemeNameLetters(u.scheme);
    var pt := Marked(':', u.port);
    var t := TailText(u);
    assert NoSpace(pt) by {
      if u.port.Some? {
        assert forall i :: 1 <= i < |pt| ==> pt[i] == u.port.value[i - 1];
      }
    }
    assert NoSpace(t) by {
      if |t| >= 2 {
        assert forall i :: 1 <= i < |t| ==> t[i] == t[1..][i - 1];
      }
    }
    NoSpaceConcat(u.scheme, "://");
    NoSpaceConcat(u.scheme + "://", u.host);
    NoSpaceConcat(u.scheme + "://" + u.host, pt);
    NoSpaceConcat(u.scheme + "://" + u.host + pt, t);
  }

  /** Every accepted URL is free of whitespace and starts with a letter. */
  lemma AcceptedHasNoSpace(s: string)
    requires Accepts(s)
    ensures NoSpace(s)
    ensures |s| > 0 && IsAlpha(s[0])
  {
    DecomposeRoundTrip(s);
    ShapedNoSpace(Decompose(s));
  }

  /** Under Python's `$`, an accepted URL followed by a newline is
      accepted too, although the pattern admits no whitespace; the
      corrected recogniser rejects it. */
  lemma AsWrittenAcceptsNewline(s: string)
    requires Accepts(s)
    ensures AcceptsAsWritten(s + "\n")
    ensures !NoSpace(s + "\n")
    ensures !Accepts(s + "\n")
  {
    assert (s + "\n")[..|s|] == s;
    assert (s + "\n")[|s|] == '\n';
    if Accepts(s + "\n") {
      AcceptedHasNoSpace(s + "\n");
    }
  }

  /** `Link("http://…\n/")`: `strip` keeps the inner newline, `rstrip('/')`
      exposes it, and the as-written pattern accepts the result. */
  lemma LinkAdmitsNewlineAsWritten(s: string)
    requires Accepts(s)
    ensures Normalize(s + "\n/") == s + "\n"
    ensures AcceptsAsWritten(Normalize(s + "\n/"))
    ensures !Accepts(Normalize(s + "\n/"))
  {
    AcceptedHasNoSpace(s);
    var raw := s + "\n/";
    assert raw[0] == s[0] && raw[|raw| - 1] == '/';
    StripNoop(raw);
    assert raw[..|raw| - 1] == s + "\n";
    AsWrittenAcceptsNewline(s);
  }

  /** A concrete instance: `Link("http://a.com\n/")` is accepted as
      written and rejected by the corrected recogniser. */
  lemma NewlineExample()
    ensures Accepts("http://a.com")
    ensures Normalize("http://a.com\n/") == "http://a.com\n"
    ensures AcceptsAsWritten("http://a.com\n") && !Accepts("http://a.com\n")
  {
    ExampleAccepted();
    LinkAdmitsNewlineAsWritten("http://a.com");
    ExampleStrings();
  }

  lemma ExampleStrings()
    ensures "http://a.com" + "\n/" == "http://a.com\n/"
    ensures "http://a.com" + "\n" == "http://a.com\n"
  {
  }

  lemma ExampleAccepted()
    ensures Accepts("http://a.com")
  {
    var u := Url("http", "a.com", None, "", None, None);
    ExampleHost();
    ExampleShaped(u);
    ComposeRoundTrip(u);
    ExampleCompose(u);
  }

  lemma ExampleHost()
    ensures IsHost("a.com")
  {
    DomainTextIsDomain(["a"], "com", false);
    ExampleDomainText();
  }

  lemma ExampleDomainText()
    ensures DomainText(["a"], "com", false) == "a.com"
  {
    assert ["a"] + ["com"] == ["a", "com"];
    assert Join(["a", "com"], ".") == "a" + "." + "com";
  }

  lemma ExampleShaped(u: Url)
    requires u == Url("http", "a.com", None, "", None, None)
    ensures Shaped(u)
  {
    assert Lower("http") == "http";
    assert TailText(u) == "";
  }

  lemma ExampleCompose(u: Url)
    requires u == Url("http", "a.com", None, "", None, None)
    ensures Compose(u) == "http://a.com"
  {
  }

  /** The normalised form of an accepted URL is its own normal form. */
  lemma NormalizeIdempotent(raw: string)
    requires Accepts(Normalize(raw))
    ensures Normalize(Normalize(raw)) == Normalize(raw)
  {
    var url := Normalize(raw);
    AcceptedHasNoSpace(url);
    NormalizeFixed(url);
  }

  lemma NormalizeFixed(url: string)
    requires NoSpace(url)
    requires url == [] || url[|url| - 1] != '/'
    ensures Normalize(url) == url
  {
    assert url == [] || (!IsSpace(url[0]) && !IsSpace(url[|url| - 1]));
    StripNoop(url);
  }

  // ---------------------------------------------------------------------
  // The host grammar
  // ---------------------------------------------------------------------

  /** Characters of a joined list: every piece's and every separator's. */
  lemma {:induction false} JoinChars(parts: seq<string>, sep: string, ok: char -> bool)
    requires forall i, j :: 0 <= i < |parts| && 0 <= j < |parts[i]| ==> ok(parts[i][j])
    requires forall j :: 0 <= j < |sep| ==> ok(sep[j])
    ensures forall j :: 0 <= j < |Join(parts, sep)| ==> ok(Join(parts, sep)[j])
    decreases |parts|
  {
    if |parts| > 1 {
      var rest := parts[1..];
      assert forall i, j :: 0 <= i < |rest| && 0 <= j < |rest[i]| ==> ok(rest[i][j]) by {
        forall i, j | 0 <= i < |rest| && 0 <= j < |rest[i]| ensures ok(rest[i][j]) {
          assert rest[i] == parts[i + 1];
        }
      }
      JoinChars(rest, sep, ok);
      var tail := Join(rest, sep);
      var p0 := parts[0];
      assert Join(parts, sep) == p0 + sep + tail;
      forall j | 0 <= j < |Join(parts, sep)| ensures ok(Join(parts, sep)[j]) {
        if j < |p0| {
          assert ok(parts[0][j]);
        } else if j < |p0| + |sep| {
          assert Join(parts, sep)[j] == sep[j - |p0|];
        } else {
          assert Join(parts, sep)[j] == tail[j - |p0| - |sep|];
        }
      }
    } else if |parts| == 1 {
      assert Join(parts, sep) == parts[0];
    }
  }

  lemma SplitEmpty(h: string)
    ensures h == [] ==> Split(h, ".") == [h]
  {
  }

  /** A host of the grammar is a non-empty run of host characters, so the
      longest run after the scheme is the only candidate. */
  lemma HostChars(h: string)
    requires IsHost(h)
    ensures |h| > 0
    ensures forall i :: 0 <= i < |h| ==> IsHostChar(h[i])
  {
    var parts := Split(h, ".");
    JoinSplit(h, ".");
    SplitEmpty(h);
    if IsDomain(h) {
      var n := |parts|;
      var m := if parts[n - 1] == "" then n - 2 else n - 1;
      assert IsLabel(parts[..m][0]);
      forall i, j | 0 <= i < |parts| && 0 <= j < |parts[i]| ensures IsHostChar(parts[i][j]) {
        if i < m {
          assert IsLabel(parts[..m][i]);
        }
      }
      JoinChars(parts, ".", IsHostChar);
    } else if IsIPv4(h) {
      JoinChars(parts, ".", IsHostChar);
    } else {
      assert |Lower(h)| == 9;
      forall i | 0 <= i < |h| ensures IsHostChar(h[i]) {
        assert ToLower(h[i]) == "localhost"[i];
      }
    }
  }

  // ---------------------------------------------------------------------
  // hash_url
  // ---------------------------------------------------------------------

  predicate IsHexDigit(c: char) { '0' <= c <= '9' || 'a' <= c <= 'f' }

  /** A SHA-1 hex digest: 40 lower-case hexadecimal digits. */
  type HexDigest = s: string | |s| == 40 && forall i :: 0 <= i < |s| ==> IsHexDigit(s[i])
    witness "0000000000000000000000000000000000000000"

  /** The identifier length `hash_url` uses when none is given. */
  const DefaultIdLength: int := 10

  /** `hash_url(url, length)`: the SHA-1 digest of the lower-cased URL,
      cut to `length` characters when that is positive.  `length = None`
      and non-positive lengths keep the whole digest.  The digest function
      is a parameter (it also stands for the UTF-8 encoding). */
  function HashUrl(sha1: string -> HexDigest, url: string, length: Option<int>): (id: string)
    ensures var n := length.GetOr(0);
      |id| == if 0 < n < 40 then n else 40
    ensures StartsWith(sha1(Lower(url)), id)
    ensures forall i :: 0 <= i < |id| ==> IsHexDigit(id[i])
  {
    var digest := sha1(Lower(url));
    var n := length.GetOr(0);
    if n > 0 then SliceTo(digest, n) else digest
  }

  /** Identifiers ignore letter case, and the default identifier is the
      first ten digits of the full one. */
  lemma HashUrlCaseBlind(sha1: string -> HexDigest, a: string, b: string)
    requires Lower(a) == Lower(b)
    ensures HashUrl(sha1, a, Some(DefaultIdLength)) == HashUrl(sha1, b, Some(DefaultIdLength))
    ensures HashUrl(sha1, a, Some(DefaultIdLength)) == HashUrl(sha1, a, None)[..DefaultIdLength]
  {
  }
}
