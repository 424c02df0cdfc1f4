/** One link of a reading list: the variant a URL is dispatched to, and
    the record (`_id`, `url`, `title_url`, `title`, `authors`,
    `publication`, plain line, Markdown line) each variant builds from the
    URL and from what its page reveals.

    Everything a page fetch, a redirect or an oEmbed call would return is
    a parameter (`Env`); so is the SHA-1 digest. */
module LinkDoc {
  import opened Results
  import opened PyStr
  import opened UrlGrammar
  import opened Pattern

  // ---------------------------------------------------------------------
  // Dispatch
  // ---------------------------------------------------------------------

  datatype Kind = Github | Twitter | ZeroKnowledgeFM | Youtube | Iacr | ZxParc | Generic

  /** The patterns of each variant; `youtu\.?be` is `youtube` or `youtu.be`. */
  function Patterns(k: Kind): seq<seq<Atom>> {
    match k
    case Github => [Dotted("github.com")]
    case Twitter => [Dotted("twitter.com")]
    case ZeroKnowledgeFM => [Dotted("zeroknowledge.fm")]
    case Youtube => [Literal("youtube"), Literal("youtu.be")]
    case Iacr => [Dotted("iacr.org"), Dotted("ia.cr"), Dotted("kobi.one")]
    case ZxParc => [Dotted("0xparc.org")]
    case Generic => []
  }

  predicate SearchAny(s: string, pats: seq<seq<Atom>>)
    decreases |pats|
  {
    |pats| > 0 && (Search(s, pats[0]) || SearchAny(s, pats[1..]))
  }

  /** The variants tried, in order, before the generic link. */
  const Precedence: seq<Kind> := [Github, Twitter, ZeroKnowledgeFM, Youtube, Iacr, ZxParc]

  function Rank(k: Kind): nat {
    match k
    case Github => 0
    case Twitter => 1
    case ZeroKnowledgeFM => 2
    case Youtube => 3
    case Iacr => 4
    case ZxParc => 5
    case Generic => 6
  }

  /** The `if`/`elif` chain of `Links.parse`: the chosen variant's
      patterns occur in the URL (the generic link has none), and those of
      every variant tried before it do not. */
  function KindOf(url: string): (k: Kind)
    ensures k != Generic ==> SearchAny(url, Patterns(k))
    ensures forall j :: 0 <= j < Rank(k) ==> !SearchAny(url, Patterns(Precedence[j]))
  {
    PatternsUnfold(url);
    assert Precedence[0] == Github && Precedence[1] == Twitter && Precedence[2] == ZeroKnowledgeFM;
    assert Precedence[3] == Youtube && Precedence[4] == Iacr && Precedence[5] == ZxParc;
    if Search(url, Dotted("github.com")) then Github
    else if Search(url, Dotted("twitter.com")) then Twitter
    else if Search(url, Dotted("zeroknowledge.fm")) then ZeroKnowledgeFM
    else if Search(url, Literal("youtube")) || Search(url, Literal("youtu.be")) then Youtube
    else if Search(url, Dotted("iacr.org")) || Search(url, Dotted("ia.cr")) || Search(url, Dotted("kobi.one")) then Iacr
    else if Search(url, Dotted("0xparc.org")) then ZxParc
    else Generic
  }

  /** A URL goes to the first variant, in precedence order, one of whose
      patterns it contains; to the generic link when there is none. */
  lemma DispatchIsFirstMatch(url: string, k: Kind)
    ensures KindOf(url) == k <==>
      && (k == Generic || SearchAny(url, Patterns(k)))
      && (forall j :: 0 <= j < Rank(k) ==> !SearchAny(url, Patterns(Precedence[j])))
  {
    PatternsUnfold(url);
    assert Precedence[0] == Github && Precedence[1] == Twitter && Precedence[2] == ZeroKnowledgeFM;
    assert Precedence[3] == Youtube && Precedence[4] == Iacr && Precedence[5] == ZxParc;
  }

  lemma PatternsUnfold(url: string)
    ensures SearchAny(url, Patterns(Github)) == Search(url, Dotted("github.com"))
    ensures SearchAny(url, Patterns(Twitter)) == Search(url, Dotted("twitter.com"))
    ensures SearchAny(url, Patterns(ZeroKnowledgeFM)) == Search(url, Dotted("zeroknowledge.fm"))
    ensures SearchAny(url, Patterns(Youtube)) == (Search(url, Literal("youtube")) || Search(url, Literal("youtu.be")))
    ensures SearchAny(url, Patterns(Iacr)) ==
      (Search(url, Dotted("iacr.org")) || Search(url, Dotted("ia.cr")) || Search(url, Dotted("kobi.one")))
    ensures SearchAny(url, Patterns(ZxParc)) == Search(url, Dotted("0xparc.org"))
    ensures !SearchAny(url, Patterns(Generic))
  {
    var one := [Dotted("github.com")];
    assert one[1..] == [];
    var two := Patterns(Youtube);
    assert two[1..][1..] == [];
    var three := Patterns(Iacr);
    assert three[1..][1..][1..] == [];
    assert [Dotted("twitter.com")][1..] == [];
    assert [Dotted("zeroknowledge.fm")][1..] == [];
    assert [Dotted("0xparc.org")][1..] == [];
  }

  /** The unescaped dot in `github.com` matches any character. */
  lemma DottedDispatchExample()
    ensures KindOf("github-com") == Github
  {
    assert MatchAt("github-com", Dotted("github.com"), 0);
  }

  // ---------------------------------------------------------------------
  // What the network would return
  // ---------------------------------------------------------------------

  /** A fetched page, as far as the links read it.  `ogTitle` is the
      `content` of the first `og:title` tag (`None`: no such tag;
      `Some(None)`: a tag without `content`); `titleTag` is `<title>`'s
      single string (`None`: no `<title>`; `Some(None)`: not a single
      string); `citationAuthors` are the `content`s of the
      `citation_author` tags. */
  datatype Page = Page(
    ogTitle: Option<Option<string>>,
    titleTag: Option<Option<string>>,
    citationAuthors: seq<Option<string>>)

  /** The oEmbed reply: a failing HTTP status, or a JSON object whose
      `title` may be missing. */
  datatype OEmbed = HttpError | Reply(title: Option<string>)

  /** The outside world: SHA-1, the `t.co` redirect target (`None` when
      the response has no redirect history), page fetches and oEmbed. */
  datatype Env = Env(
    sha1: string -> HexDigest,
    redirect: string -> Option<string>,
    page: string -> Page,
    oembed: string -> OEmbed)

  /** `_scrape_html_title`: `og:title` first, else `<title>`, else `''`;
      `None` where Python would hold `None`. */
  function ScrapedTitle(p: Page): (t: Option<string>)
    ensures p.ogTitle.Some? ==> t == p.ogTitle.value
    ensures p.ogTitle.None? && p.titleTag.None? ==> t == Some("")
    ensures p.ogTitle.None? && p.titleTag.Some? ==> t == p.titleTag.value
  {
    match p.ogTitle
    case Some(content) => content
    case None =>
      match p.titleTag
      case None => Some("")
      case Some(text) => text
  }

  // ---------------------------------------------------------------------
  // Titles
  // ---------------------------------------------------------------------

  predicate IsPathSep(c: char) { c == '-' || c == '_' || c == '/' }

  /** No `-`, `_` or `/`, every whitespace character a plain space, and no
      two spaces in a row. */
  ghost predicate Tidy(s: string) {
    && (forall i :: 0 <= i < |s| ==> !IsPathSep(s[i]) && (IsSpace(s[i]) ==> s[i] == ' '))
    && NoDoubleSpace(s)
  }

  /** The path branch of `_get_title_from_url`: trailing `/` dropped, runs
      of `-`, `_`, `/` and then of whitespace become one space, trimmed,
      capitalised. */
  function TitleFromPath(path: string): (t: string)
    ensures Tidy(t)
    ensures t == [] || (t[0] != ' ' && t[|t| - 1] != ' ')
    ensures |t| > 0 ==> !IsLower(t[0])
    ensures forall i :: 0 < i < |t| ==> !IsUpper(t[i])
  {
    var words := PathWords(path);
    var trimmed := Strip(words);
    TidyStrip(words, trimmed);
    TidyCapitalize(trimmed);
    Capitalize(trimmed)
  }

  /** The path with its separators and whitespace collapsed to spaces. */
  function PathWords(path: string): (words: string)
    ensures Tidy(words)
  {
    var spaced := ReplaceRuns(RStripChar(path, '/'), IsPathSep, ' ');
    TidyCollapse(spaced, CollapseSpaces(spaced));
    CollapseSpaces(spaced)
  }

  lemma TidyCollapse(spaced: string, words: string)
    requires forall i :: 0 <= i < |spaced| && IsPathSep(spaced[i]) ==> spaced[i] == ' '
    requires words == CollapseSpaces(spaced)
    ensures Tidy(words)
  {
    forall i | 0 <= i < |words| ensures !IsPathSep(words[i]) {
      if words[i] != ' ' {
        ReplaceRunsFrom(spaced, IsSpace, ' ', words[i]);
      }
    }
  }

  lemma TidyStrip(s: string, r: string)
    requires Tidy(s) && r == Strip(s)
    ensures Tidy(r) && (r == [] || (r[0] != ' ' && r[|r| - 1] != ' '))
  {
    var k := |s| - |LStrip(s)|;
    forall i | 0 <= i < |r| ensures !IsPathSep(r[i]) && (IsSpace(r[i]) ==> r[i] == ' ') {
      StripAt(s, i);
    }
    forall i, j | 0 <= i < j < |r| && j == i + 1 ensures !(r[i] == ' ' && r[j] == ' ') {
      StripAt(s, i);
      StripAt(s, j);
    }
  }

  lemma CaseMapChar(c: char)
    ensures ToLower(c) == c || (IsUpper(c) && IsLower(ToLower(c)))
    ensures ToUpper(c) == c || (IsLower(c) && IsUpper(ToUpper(c)))
    ensures !IsUpper(ToLower(c)) && !IsLower(ToUpper(c))
  {
  }

  lemma TidyCapitalize(s: string)
    requires Tidy(s) && (s == [] || (s[0] != ' ' && s[|s| - 1] != ' '))
    ensures Tidy(Capitalize(s))
    ensures var t := Capitalize(s); t == [] || (t[0] != ' ' && t[|t| - 1] != ' ')
    ensures |s| > 0 ==> !IsLower(Capitalize(s)[0])
    ensures forall i :: 0 < i < |s| ==> !IsUpper(Capitalize(s)[i])
  {
    var t := Capitalize(s);
    forall i | 0 <= i < |s| ensures (t[i] == s[i] || IsAlpha(t[i])) && !IsSpace(t[i]) == !IsSpace(s[i]) {
      CaseMapChar(s[i]);
    }
    forall i | 0 <= i < |s| ensures (i == 0 ==> !IsLower(t[i])) && (i > 0 ==> !IsUpper(t[i])) {
      CaseMapChar(s[i]);
    }
  }

  /** `_get_title_from_url`: from the path when there is one, else the
      capitalised host name. */
  function TitleFromUrl(u: Url): (t: string)
    ensures u.path != "" ==> t == TitleFromPath(u.path)
    ensures u.path == "" && NoSpace(u.host) ==> t == Capitalize(u.Hostname())
  {
    if u.path != "" then TitleFromPath(u.path)
    else
      assert NoSpace(u.host) ==> Strip(u.Hostname()) == u.Hostname() by {
        if NoSpace(u.host) {
          assert NoSpace(u.Hostname());
          StripKeepsNoSpace(u.Hostname());
        }
      }
      Capitalize(Strip(u.Hostname()))
  }

  /** A path segment without separators or whitespace. */
  predicate Segment(w: string) {
    w != [] && forall i :: 0 <= i < |w| ==> !IsPathSep(w[i]) && !IsSpace(w[i])
  }

  /** `/word` gives the word, capitalised: a tweet's `/AnnaRRose` gives
      `Annarrose`, the later capitals lowered. */
  lemma TitleFromOneSegment(w: string)
    requires Segment(w)
    ensures TitleFromPath("/" + w) == Capitalize(w)
  {
    var p := ['/'] + w;
    assert RStripChar(p, '/') == p;
    RunsOfOne('/', w, IsPathSep, ' ');
    RunsOfOne(' ', w, IsSpace, ' ');
    StripLeadingSpace(w);
  }

  /** `/a/b` gives `a b`, capitalised. */
  lemma TitleFromTwoSegments(a: string, b: string)
    requires Segment(a) && Segment(b)
    ensures TitleFromPath("/" + a + "/" + b) == Capitalize(a + " " + b)
  {
    PathWordsOfTwo(a, b);
    LeadingSpace(a, b);
    StripLeadingSpace(a + [' '] + b);
  }

  lemma PathWordsOfTwo(a: string, b: string)
    requires Segment(a) && Segment(b)
    ensures PathWords("/" + a + "/" + b) == [' '] + a + [' '] + b
  {
    var p := ['/'] + a + ['/'] + b;
    assert RStripChar(p, '/') == p;
    RunsOfTwo('/', a, b, IsPathSep, ' ');
    RunsOfTwo(' ', a, b, IsSpace, ' ');
  }

  lemma LeadingSpace(a: string, b: string)
    ensures [' '] + a + [' '] + b == [' '] + (a + [' '] + b)
  {
  }

  /** The GitHub rewrites: `·` becomes `|` everywhere; `Release ` becomes
      `Update: `, and ` | GitHub` and `GitHub - ` are dropped, each at
      most twice and matching case exactly. */
  function GithubRewrites(scraped: string): (t: string)
    ensures '·' !in t
  {
    var t1 := Sub(scraped, "·", "|", All);
    SubAllRemovesChar(scraped, '·', "|");
    var t2 := Sub(t1, "Release ", "Update: ", AtMost(2));
    SubChars(t1, "Release ", "Update: ", AtMost(2), '·');
    var t3 := Sub(t2, " | GitHub", "", AtMost(2));
    SubChars(t2, " | GitHub", "", AtMost(2), '·');
    SubChars(t3, "GitHub - ", "", AtMost(2), '·');
    Sub(t3, "GitHub - ", "", AtMost(2))
  }

  /** A title holding none of the rewritten texts is kept as scraped. */
  lemma GithubRewritesPlain(t: string)
    requires !Contains(t, "·") && !Contains(t, "Release ")
    requires !Contains(t, " | GitHub") && !Contains(t, "GitHub - ")
    ensures GithubRewrites(t) == t
  {
    SubNoMatch(t, "·", "|", All);
    SubNoMatch(t, "Release ", "Update: ", AtMost(2));
    SubNoMatch(t, " | GitHub", "", AtMost(2));
    SubNoMatch(t, "GitHub - ", "", AtMost(2));
  }

  /** The site suffix of a scraped GitHub title is dropped: its `·` first
      becomes `|`, and ` | GitHub` then goes. */
  lemma GithubRewritesExample()
    ensures GithubRewrites("a · GitHub") == "a"
  {
    DotRewritten();
    ReleaseKept();
    GithubSuffixDropped();
    GithubPrefixKept();
  }

  lemma ReleaseKept()
    ensures Sub("a | GitHub", "Release ", "Update: ", AtMost(2)) == "a | GitHub"
  {
    MissingCharNoMatch("a | GitHub", "Release ", 0);
    SubNoMatch("a | GitHub", "Release ", "Update: ", AtMost(2));
  }

  lemma GithubPrefixKept()
    ensures Sub("a", "GitHub - ", "", AtMost(2)) == "a"
  {
    MissingCharNoMatch("a", "GitHub - ", 0);
    SubNoMatch("a", "GitHub - ", "", AtMost(2));
  }

  lemma DotRewritten()
    ensures Sub("a · GitHub", "·", "|", All) == "a | GitHub"
  {
    DotAtTwo();
    FindAt("a · GitHub", "·", 2);
    NoDotLeft();
    assert "a " + "|" + " GitHub" == "a | GitHub";
  }

  lemma NoDotLeft()
    ensures Sub(" GitHub", "·", "|", All) == " GitHub"
  {
    MissingCharNoMatch(" GitHub", "·", 0);
    SubNoMatch(" GitHub", "·", "|", All);
  }

  lemma DotAtTwo()
    ensures OccursAt("a · GitHub", "·", 2)
    ensures forall j: nat :: j < 2 ==> !OccursAt("a · GitHub", "·", j)
    ensures "a · GitHub"[..2] == "a " && "a · GitHub"[3..] == " GitHub"
  {
    MismatchAt("a · GitHub", "·", 0, 0);
    MismatchAt("a · GitHub", "·", 1, 0);
  }

  lemma GithubSuffixDropped()
    ensures Sub("a | GitHub", " | GitHub", "", AtMost(2)) == "a"
  {
    MismatchAt("a | GitHub", " | GitHub", 0, 0);
    GithubSuffixAtOne();
    FindAt("a | GitHub", " | GitHub", 1);
    MissingCharNoMatch("", " | GitHub", 0);
    SubNoMatch("", " | GitHub", "", AtMost(1));
    assert "a" + "" + "" == "a";
  }

  lemma GithubSuffixAtOne()
    ensures OccursAt("a | GitHub", " | GitHub", 1)
    ensures "a | GitHub"[..1] == "a" && "a | GitHub"[10..] == ""
  {
  }

  /** `GithubLink.get_title`, release branch included: the last
      `/`-segment of a URL always occurs in the URL, so the suffix is never
      appended and the title is the rewritten scraped title. */
  function GithubTitle(url: string, scraped: string): (t: string)
    ensures t == GithubRewrites(scraped)
  {
    var title := GithubRewrites(scraped);
    if Contains(url, "releases/") then
      var v := Last(Split(url, "/"));
      SplitLastIsSuffix(url, "/");
      SuffixIsContained(url, v);
      if !Contains(url, v) then title + "  " + v else title
    else title
  }

  /** `ZeroKnowledgeFMLink.get_title`: `Episode` becomes `Ep` everywhere,
      and ` - ZK Podcast` is dropped at most twice. */
  function PodcastTitle(scraped: string): (t: string)
    ensures |t| <= |scraped|
  {
    var t1 := Sub(scraped, "Episode", "Ep", All);
    SubShrinks(scraped, "Episode", "Ep", All);
    SubShrinks(t1, " - ZK Podcast", "", AtMost(2));
    Sub(t1, " - ZK Podcast", "", AtMost(2))
  }

  /** A title without `Episode` or ` - ZK Podcast` is kept as scraped. */
  lemma PodcastTitlePlain(t: string)
    requires !Contains(t, "Episode") && !Contains(t, " - ZK Podcast")
    ensures PodcastTitle(t) == t
  {
    SubNoMatch(t, "Episode", "Ep", All);
    SubNoMatch(t, " - ZK Podcast", "", AtMost(2));
  }

  /** An episode page title loses its site suffix and its `Episode`. */
  lemma PodcastTitleExample()
    ensures PodcastTitle("Episode 5 - ZK Podcast") == "Ep 5"
  {
    EpisodeShortened();
    SuffixDropped();
  }

  lemma EpisodeShortened()
    ensures Sub("Episode 5 - ZK Podcast", "Episode", "Ep", All) == "Ep 5 - ZK Podcast"
  {
    EpisodeAtStart();
    FindAt("Episode 5 - ZK Podcast", "Episode", 0);
    NoEpisodeLeft();
    EpJoined();
  }

  lemma EpisodeAtStart()
    ensures OccursAt("Episode 5 - ZK Podcast", "Episode", 0)
    ensures "Episode 5 - ZK Podcast"[..0] == "" && "Episode 5 - ZK Podcast"[7..] == " 5 - ZK Podcast"
  {
  }

  lemma EpJoined()
    ensures "" + "Ep" + " 5 - ZK Podcast" == "Ep 5 - ZK Podcast"
  {
  }

  lemma NoEpisodeLeft()
    ensures Sub(" 5 - ZK Podcast", "Episode", "Ep", All) == " 5 - ZK Podcast"
  {
    MissingCharNoMatch(" 5 - ZK Podcast", "Episode", 0);
    SubNoMatch(" 5 - ZK Podcast", "Episode", "Ep", All);
  }

  lemma SuffixDropped()
    ensures Sub("Ep 5 - ZK Podcast", " - ZK Podcast", "", AtMost(2)) == "Ep 5"
  {
    SuffixAtFour();
    FindAt("Ep 5 - ZK Podcast", " - ZK Podcast", 4);
    MissingCharNoMatch("", " - ZK Podcast", 0);
    SubNoMatch("", " - ZK Podcast", "", AtMost(1));
    assert "Ep 5" + "" + "" == "Ep 5";
  }

  lemma SuffixAtFour()
    ensures OccursAt("Ep 5 - ZK Podcast", " - ZK Podcast", 4)
    ensures forall j: nat :: j < 4 ==> !OccursAt("Ep 5 - ZK Podcast", " - ZK Podcast", j)
    ensures "Ep 5 - ZK Podcast"[..4] == "Ep 5" && "Ep 5 - ZK Podcast"[17..] == ""
  {
    SuffixNotBefore();
    SuffixSlices();
  }

  lemma SuffixNotBefore()
    ensures forall j: nat :: j < 4 ==> !OccursAt("Ep 5 - ZK Podcast", " - ZK Podcast", j)
  {
    var t1 := "Ep 5 - ZK Podcast";
    MismatchAt(t1, " - ZK Podcast", 0, 0);
    MismatchAt(t1, " - ZK Podcast", 1, 0);
    MismatchAt(t1, " - ZK Podcast", 2, 1);
    MismatchAt(t1, " - ZK Podcast", 3, 0);
  }

  lemma SuffixSlices()
    ensures OccursAt("Ep 5 - ZK Podcast", " - ZK Podcast", 4)
    ensures "Ep 5 - ZK Podcast"[..4] == "Ep 5" && "Ep 5 - ZK Podcast"[17..] == ""
  {
  }

  /** The length of a match of `Zero[- ]Knowledge Proof(s)?` at the start
      of `s`, or 0. */
  function ZkpMatchLen(s: string): (n: nat)
    ensures n == 0 || ((n == 20 || n == 21) && n <= |s|)
  {
    if |s| >= 20 && s[..4] == "Zero" && (s[4] == '-' || s[4] == ' ') && s[5..20] == "Knowledge Proof" then
      (if |s| > 20 && s[20] == 's' then 21 else 20)
    else 0
  }

  /** `re.sub('Zero[- ]Knowledge Proof(s)?', 'ZKP', title)`. */
  function AbbreviateZkp(s: string): (r: string)
    ensures |r| <= |s|
    decreases |s|
  {
    if s == [] then []
    else
      var n := ZkpMatchLen(s);
      if n > 0 then "ZKP" + AbbreviateZkp(s[n..])
      else [s[0]] + AbbreviateZkp(s[1..])
  }

  /** A text without the phrase is left alone. */
  lemma {:induction false} AbbreviateZkpNoPhrase(s: string)
    requires forall i :: 0 <= i <= |s| ==> ZkpMatchLen(s[i..]) == 0
    ensures AbbreviateZkp(s) == s
    decreases |s|
  {
    if s != [] {
      assert s[0..] == s;
      assert forall i :: 0 <= i <= |s[1..]| ==> s[1..][i..] == s[i + 1..];
      AbbreviateZkpNoPhrase(s[1..]);
    }
  }

  lemma AbbreviateZkpExample()
    ensures AbbreviateZkp("Zero-Knowledge Proofs") == "ZKP"
  {
    ZkpPhraseWhole();
    assert "Zero-Knowledge Proofs"[21..] == [];
  }

  lemma ZkpPhraseWhole()
    ensures ZkpMatchLen("Zero-Knowledge Proofs") == 21
  {
    var s := "Zero-Knowledge Proofs";
    assert s[..4] == "Zero" by {
      assert s[0] == 'Z' && s[1] == 'e' && s[2] == 'r' && s[3] == 'o';
    }
    assert s[5..20] == "Knowledge Proof";
  }

  /** The title each variant reports, before `strip()`: the URL's own
      title for 0xPARC and Twitter; the oEmbed title for a YouTube video
      or playlist, with a placeholder when the request fails; otherwise the
      scraped page title, rewritten as the variant prescribes. */
  function VariantTitle(env: Env, kind: Kind, url: string, titleUrl: string): (r: Result<string>)
    ensures r.Fail? ==> r.error == MissingTitle(url)
    ensures kind == ZxParc || kind == Twitter ==> r == Ok(titleUrl)
    ensures kind == Youtube && (Contains(url, "/watch") || Contains(url, "/playlist")) ==>
      && (r.Fail? <==> env.oembed(url) == Reply(None))
      && (env.oembed(url) == HttpError ==> r == Ok("--No Title Found--"))
      && (env.oembed(url).Reply? && env.oembed(url).title.Some? ==> r == Ok(env.oembed(url).title.value))
    ensures kind != Youtube && kind != ZxParc && kind != Twitter ==>
      (r.Fail? <==> ScrapedTitle(env.page(url)) == None)
    ensures ScrapedTitle(env.page(url)).Some? ==>
      var t := ScrapedTitle(env.page(url)).value;
      && (kind == Youtube && !Contains(url, "/watch") && !Contains(url, "/playlist") ==> r == Ok(t))
      && (kind == Generic ==> r == Ok(PyStr.Title(t)))
      && (kind == Github ==> r == Ok(GithubRewrites(t)))
      && (kind == ZeroKnowledgeFM ==> r == Ok(PodcastTitle(t)))
      && (kind == Iacr ==> r == Ok(AbbreviateZkp(t)))
  {
    match kind
    case ZxParc => Ok(titleUrl)
    case Twitter => Ok(titleUrl)
    case Youtube =>
      if Contains(url, "/watch") || Contains(url, "/playlist") then
        (match env.oembed(url)
         case HttpError => Ok("--No Title Found--")
         case Reply(None) => Fail(MissingTitle(url))
         case Reply(Some(t)) => Ok(t))
      else ScrapedOr(env, url, t => t)
    case Generic => ScrapedOr(env, url, PyStr.Title)
    case Github => ScrapedOr(env, url, t => GithubTitle(url, t))
    case ZeroKnowledgeFM => ScrapedOr(env, url, PodcastTitle)
    case Iacr => ScrapedOr(env, url, AbbreviateZkp)
  }

  /** Rewrite the scraped title, failing where Python would call a method
      on `None`. */
  function ScrapedOr(env: Env, url: string, rewrite: string -> string): (r: Result<string>)
    ensures r.Fail? <==> ScrapedTitle(env.page(url)) == None
    ensures r.Fail? ==> r.error == MissingTitle(url)
    ensures r.Ok? ==> r.value == rewrite(ScrapedTitle(env.page(url)).value)
  {
    match ScrapedTitle(env.page(url))
    case None => Fail(MissingTitle(url))
    case Some(t) => Ok(rewrite(t))
  }

  // ---------------------------------------------------------------------
  // Authors
  // ---------------------------------------------------------------------

  /** The text after the first space, or `''` without one. */
  function AfterFirstSpace(x: string): string {
    match Find(x, " ")
    case None => ""
    case Some(i) => x[i + 1..]
  }

  /** `abbr(x)`: first character, `. `, then the words after the first,
      re-joined; an empty name raises `IndexError`. */
  function AbbreviateAuthor(x: string): (r: Result<string>)
    ensures r.Fail? ==> r.error == EmptyAuthorName
    ensures r.Ok? <==> x != ""
    ensures r.Ok? ==> r.value == [x[0]] + ". " + AfterFirstSpace(x)
  {
    if x == "" then Fail(EmptyAuthorName)
    else
      var parts := Split(x, " ");
      JoinRest(x);
      Ok([x[0]] + ". " + Join(parts[1..], " "))
  }

  lemma JoinRest(x: string)
    ensures Join(Split(x, " ")[1..], " ") == AfterFirstSpace(x)
  {
    match Find(x, " ")
    case None =>
    case Some(i) =>
      assert Split(x, " ")[1..] == Split(x[i + 1..], " ");
      JoinSplit(x[i + 1..], " ");
  }

  /** The `citation_author` contents abbreviated in order; the first
      missing or empty one aborts the list. */
  function AbbreviateAll(url: string, contents: seq<Option<string>>): (r: Result<seq<string>>)
    ensures r.Ok? <==> forall i :: 0 <= i < |contents| ==> contents[i].Some? && contents[i].value != ""
    ensures r.Ok? ==>
      && |r.value| == |contents|
      && (forall i :: 0 <= i < |contents| ==> r.value[i] == AbbreviateAuthor(contents[i].value).value)
    ensures r.Fail? ==> exists i :: 0 <= i < |contents| && (contents[i] == None || contents[i] == Some(""))
    ensures r.Fail? ==> r.error == MissingAuthor(url) || r.error == EmptyAuthorName
    decreases |contents|
  {
    if contents == [] then Ok([])
    else
      match contents[0]
      case None => Fail(MissingAuthor(url))
      case Some(x) =>
        match AbbreviateAuthor(x)
        case Fail(e) => Fail(e)
        case Ok(a) =>
          match AbbreviateAll(url, contents[1..])
          case Fail(e) =>
            MissingLater(contents);
            Fail(e)
          case Ok(rest) =>
            AllPresent(contents, a, rest);
            Ok([a] + rest)
  }

  /** A name missing after the first is missing from the whole list. */
  lemma MissingLater(contents: seq<Option<string>>)
    requires contents != []
    requires exists i :: 0 <= i < |contents[1..]| && (contents[1..][i] == None || contents[1..][i] == Some(""))
    ensures exists i :: 0 <= i < |contents| && (contents[i] == None || contents[i] == Some(""))
  {
    var i :| 0 <= i < |contents[1..]| && (contents[1..][i] == None || contents[1..][i] == Some(""));
    assert contents[i + 1] == contents[1..][i];
  }

  /** The first name abbreviated in front of the others abbreviated. */
  lemma AllPresent(contents: seq<Option<string>>, a: string, rest: seq<string>)
    requires contents != [] && contents[0].Some? && AbbreviateAuthor(contents[0].value) == Ok(a)
    requires |rest| == |contents| - 1
    requires forall i :: 0 <= i < |rest| ==> contents[1..][i].Some? && contents[1..][i].value != ""
    requires forall i :: 0 <= i < |rest| ==> rest[i] == AbbreviateAuthor(contents[1..][i].value).value
    ensures forall i :: 0 <= i < |contents| ==> contents[i].Some? && contents[i].value != ""
    ensures forall i :: 0 <= i < |contents| ==> ([a] + rest)[i] == AbbreviateAuthor(contents[i].value).value
  {
    forall i | 0 < i < |contents|
      ensures contents[i].Some? && contents[i].value != ""
      ensures ([a] + rest)[i] == AbbreviateAuthor(contents[i].value).value
    {
      assert contents[i] == contents[1..][i - 1];
    }
  }

  /** One `ab_channel=value` field of a query, `+` read as a space; an
      empty value is skipped, as `parse_qs` skips blank values. */
  function FieldValue(field: string, name: string): Option<string> {
    if StartsWith(field, name + "=") && |field| > |name| + 1 then
      Some(Replace(field[|name| + 1..], "+", " "))
    else None
  }

  /** `parse_qs(query).get(name, [...])[0]`: the first field that names
      `name` with a non-empty value. */
  function QueryParam(fields: seq<string>, name: string): (v: Option<string>)
    ensures v.Some? <==> exists i :: 0 <= i < |fields| && FieldValue(fields[i], name).Some?
    ensures v.Some? ==>
      exists i ::
        && 0 <= i < |fields| && v == FieldValue(fields[i], name)
        && (forall j :: 0 <= j < i ==> FieldValue(fields[j], name).None?)
    decreases |fields|
  {
    if fields == [] then None
    else if FieldValue(fields[0], name).Some? then FieldValue(fields[0], name)
    else
      var v := QueryParam(fields[1..], name);
      assert forall i :: 0 < i < |fields| ==> fields[i] == fields[1..][i - 1];
      v
  }

  /** The authors each variant reports, before `strip()`: a tweet's
      `title_url` up to its first space; a YouTube video's `ab_channel`
      query parameter, `blabla` without one; the abbreviated IACR
      `citation_author`s joined by `, `; nothing otherwise. */
  function VariantAuthors(env: Env, kind: Kind, url: string, u: Url, titleUrl: string): (r: Result<string>)
    ensures r.Fail? ==> r.error == MissingAuthor(url) || r.error == EmptyAuthorName
    ensures kind != Iacr ==> r.Ok?
    ensures kind == Twitter ==>
      && StartsWith(titleUrl, r.value) && !Contains(r.value, " ")
      && (|r.value| == |titleUrl| || titleUrl[|r.value|] == ' ')
    ensures kind == Youtube && Contains(url, "/watch") ==>
      r == Ok(QueryParam(Split(u.Query(), "&"), "ab_channel").GetOr("blabla"))
    ensures kind == Youtube && !Contains(url, "/watch") ==> r == Ok("")
    ensures kind == Iacr ==>
      && (r.Ok? <==> AbbreviateAll(url, env.page(url).citationAuthors).Ok?)
      && (r.Ok? ==> r.value == Join(AbbreviateAll(url, env.page(url).citationAuthors).value, ", "))
    ensures kind in {Generic, Github, ZeroKnowledgeFM, ZxParc} ==> r == Ok("")
  {
    match kind
    case Twitter =>
      SplitPiecesLackSeparator(titleUrl, " ");
      SplitFirstIsPrefix(titleUrl, " ");
      SplitFirstStops(titleUrl, " ");
      Ok(Split(titleUrl, " ")[0])
    case Youtube =>
      if Contains(url, "/watch") then
        Ok(QueryParam(Split(u.Query(), "&"), "ab_channel").GetOr("blabla"))
      else Ok("")
    case Iacr =>
      (match AbbreviateAll(url, env.page(url).citationAuthors)
       case Fail(e) => Fail(e)
       case Ok(names) => Ok(Join(names, ", ")))
    case _ => Ok("")
  }

  lemma SplitFirstIsPrefix(s: string, sep: string)
    requires |sep| > 0
    ensures StartsWith(s, Split(s, sep)[0])
  {
  }

  /** The first piece of a split stops at the end or at a separator. */
  lemma SplitFirstStops(s: string, sep: string)
    requires |sep| > 0
    ensures |Split(s, sep)[0]| == |s| || OccursAt(s, sep, |Split(s, sep)[0]|)
  {
  }

  // ---------------------------------------------------------------------
  // Publication, lines
  // ---------------------------------------------------------------------

  /** `get_publication`: the host name with every `www.` removed. */
  function Publication(u: Url): (p: string)
    ensures |p| <= |u.host|
    ensures forall i :: 0 <= i < |p| ==> !IsUpper(p[i])
  {
    var h := u.Hostname();
    SubShrinks(h, "www.", "", All);
    forall c | IsUpper(c) ensures c !in Sub(h, "www.", "", All) {
      SubChars(h, "www.", "", All, c);
    }
    Replace(h, "www.", "")
  }

  /** The publication is the lower-cased host cut at every `www.` and put
      back together without it. */
  lemma PublicationPieces(u: Url)
    ensures Publication(u) == Join(Split(Lower(u.host), "www."), "")
  {
    SubAllJoinsSplit(Lower(u.host), "www.", "");
  }

  /** A host written `www.` and a name is published as the lower-cased
      name. */
  lemma PublicationDropsWww(u: Url, name: string)
    requires u.host == "www." + name && !Contains(Lower(name), "www.")
    ensures Publication(u) == Lower(name)
  {
    var h := Lower(u.host);
    assert h[..4] == "www." && h[4..] == Lower(name);
    assert Find(h, "www.") == Some(0) by { assert OccursAt(h, "www.", 0); }
    SubNoMatch(Lower(name), "www.", "", All);
  }

  /** `re.sub(r'&?ab_channel=[^&]+', '', url)`: the length of a match at
      the start of `s`, or 0. */
  function AbChannelLen(s: string): nat {
    var bare := ChannelParamLen(s);
    if |s| > 0 && s[0] == '&' && ChannelParamLen(s[1..]) > 0 then 1 + ChannelParamLen(s[1..])
    else bare
  }

  predicate IsAmp(c: char) { c == '&' }

  function ChannelParamLen(s: string): (n: nat)
    ensures n <= |s|
  {
    if StartsWith(s, "ab_channel=") then
      var e := RunEnd(s, 11, IsAmp);
      if e > 11 then e else 0
    else 0
  }

  function StripAbChannel(s: string): (r: string)
    ensures |r| <= |s|
    decreases |s|
  {
    if s == [] then []
    else
      var n := AbChannelLen(s);
      if 0 < n <= |s| then StripAbChannel(s[n..])
      else [s[0]] + StripAbChannel(s[1..])
  }

  /** A URL without `ab_channel=` is left alone. */
  lemma {:induction false} StripAbChannelNoParam(s: string)
    requires !Contains(s, "ab_channel=")
    ensures StripAbChannel(s) == s
    decreases |s|
  {
    if s != [] {
      PrefixContains(s, "ab_channel=");
      PrefixContains(s[1..], "ab_channel=");
      ContainsAppend([s[0]], s[1..], "ab_channel=");
      assert [s[0]] + s[1..] == s;
      StripAbChannelNoParam(s[1..]);
    }
  }

  /** `' | '.join` of the non-empty parts, in order. */
  function JoinPresent(parts: seq<string>): (r: string)
    ensures forall i :: 0 <= i < |parts| ==> parts[i] == "" || Contains(r, parts[i])
    decreases |parts|
  {
    if parts == [] then ""
    else if parts[0] == "" then JoinPresent(parts[1..])
    else
      var rest := JoinPresent(parts[1..]);
      var r := if rest == "" then parts[0] else parts[0] + " | " + rest;
      PrefixContains(r, parts[0]);
      forall i | 1 <= i < |parts| && parts[i] != "" ensures Contains(r, parts[i]) {
        assert parts[i] == parts[1..][i - 1];
        ContainsAppend(parts[0] + " | ", rest, parts[i]);
      }
      r
  }

  /** The non-empty parts, in order. */
  function Present(parts: seq<string>): (kept: seq<string>)
    ensures forall i :: 0 <= i < |kept| ==> kept[i] != ""
    ensures |kept| <= |parts|
    decreases |parts|
  {
    if parts == [] then []
    else if parts[0] == "" then Present(parts[1..])
    else [parts[0]] + Present(parts[1..])
  }

  /** Joining the present parts is `' | '.join` of the filtered list. */
  lemma {:induction false} JoinPresentIsJoin(parts: seq<string>)
    ensures JoinPresent(parts) == Join(Present(parts), " | ")
    decreases |parts|
  {
    if parts != [] {
      JoinPresentIsJoin(parts[1..]);
      if parts[0] != "" {
        var kept := [parts[0]] + Present(parts[1..]);
        assert kept[1..] == Present(parts[1..]);
        if Present(parts[1..]) != [] {
          JoinCons(kept, " | ");
        }
      }
    }
  }

  /** `get_string` of each variant, before whitespace runs are collapsed:
      every variant but the generic one opens with the URL (without its
      `ab_channel` for a YouTube video) and ` | `. */
  function PlainLine(kind: Kind, url: string, titleUrl: string, title: string, authors: string, pub: string): (r: string)
    ensures kind != Generic && kind != ZxParc ==> StartsWith(r, ShownUrl(kind, url) + " | ")
    ensures kind == Generic || kind == ZxParc ==> (url != "" ==> StartsWith(r, url))
  {
    match kind
    case Github => url + " | " + title + " | " + pub
    case ZeroKnowledgeFM => url + " | " + title + " | " + pub
    case Twitter => url + " | Tweet by @" + authors
    case Youtube =>
      if Contains(url, "/watch") then StripAbChannel(url) + " | " + title + " by " + authors
      else if Contains(url, "/playlist") then url + " | Playlist: " + title
      else url + " | " + title
    case Iacr => url + " | (" + Replace(titleUrl, " ", "/") + ") " + title + " by " + authors
    case _ =>
      assert [url, title, authors, pub][0] == url;
      JoinPresent([url, title, authors, pub])
  }

  /** The URL as the lines show it: a YouTube video's without its
      `ab_channel` parameter. */
  function ShownUrl(kind: Kind, url: string): string {
    if kind == Youtube && Contains(url, "/watch") then StripAbChannel(url) else url
  }

  /** A URL without whitespace reads back as the first ` | ` field of the
      plain line. */
  lemma PlainLineUrlField(kind: Kind, url: string, titleUrl: string, title: string, authors: string, pub: string)
    requires kind != Generic && kind != ZxParc && NoSpace(ShownUrl(kind, url))
    ensures Split(PlainLine(kind, url, titleUrl, title, authors, pub), " | ")[0] == ShownUrl(kind, url)
  {
    var r := PlainLine(kind, url, titleUrl, title, authors, pub);
    var v := ShownUrl(kind, url);
    assert r == v + " | " + r[|v| + 3..];
    NoSpaceSeparated(v, " | ");
    SplitFirstField(v, r[|v| + 3..], " | ");
  }

  /** A GitHub or podcast line reads back, through `split(' | ')`, as its
      URL, title and publication, when the title does not run into a
      ` | ` and the publication holds none. */
  lemma PlainLineFields(kind: Kind, url: string, titleUrl: string, title: string, authors: string, pub: string)
    requires kind == Github || kind == ZeroKnowledgeFM
    requires NoSpace(url) && !Contains(pub, " | ")
    requires forall j :: 0 <= j < |title| ==> !OccursAt(title + " | ", " | ", j)
    ensures Split(PlainLine(kind, url, titleUrl, title, authors, pub), " | ") == [url, title, pub]
  {
    NoSpaceSeparated(url, " | ");
    assert url + " | " + title + " | " + pub == url + " | " + (title + " | " + pub);
    SplitFirstField(url, title + " | " + pub, " | ");
    SplitFirstField(title, pub, " | ");
    assert Split(pub, " | ") == [pub];
  }

  /** `[title](url)` and what follows: the lines of a GitHub, podcast,
      IACR, 0xPARC or generic link and of a YouTube page that is neither a
      video nor a playlist. */
  predicate TitleLinked(kind: Kind, url: string) {
    kind != Twitter && (kind != Youtube || (!Contains(url, "/watch") && !Contains(url, "/playlist")))
  }

  /** `get_markdown` of each variant: a Markdown link to the URL (without
      its `ab_channel` for a YouTube video) whose text is the title, or
      `Tweet` for a tweet, followed by the authors or the publication. */
  function MarkdownLine(kind: Kind, url: string, title: string, authors: string, pub: string): (r: string)
    ensures TitleLinked(kind, url) ==>
      r == "[" + title + "](" + url + ")" + MarkdownTail(kind, authors, pub)
    ensures kind == Twitter ==> r == "[Tweet](" + url + ")" + MarkdownTail(kind, authors, pub)
    ensures kind == Youtube && !TitleLinked(kind, url) ==> EndsWith(r, "](" + ShownUrl(kind, url) + ")")
  {
    match kind
    case Twitter => "[Tweet](" + url + ") by @" + authors
    case Youtube =>
      var text :=
        if Contains(url, "/watch") then "[" + title + " by " + authors
        else if Contains(url, "/playlist") then "[Playlist: " + title
        else "[" + title;
      LinkEnds(text, ShownUrl(kind, url));
      text + "](" + ShownUrl(kind, url) + ")"
    case Iacr => "[" + title + "](" + url + ") by " + authors
    case _ => "[" + title + "](" + url + ") | " + pub
  }

  lemma LinkEnds(text: string, target: string)
    ensures EndsWith(text + "](" + target + ")", "](" + target + ")")
  {
    var r := text + "](" + target + ")";
    assert r[|text|..] == "](" + target + ")";
  }

  /** What follows the link in a Markdown line. */
  function MarkdownTail(kind: Kind, authors: string, pub: string): string {
    match kind
    case Twitter => " by @" + authors
    case Youtube => ""
    case Iacr => " by " + authors
    case _ => " | " + pub
  }

  /** An IACR edition: the `title_url` of `/<year>/<number>` with its
      space turned back into `/`, as in `2022/509`. */
  lemma IacrEdition(a: string, b: string)
    requires Segment(a) && Segment(b)
    requires forall i :: 0 <= i < |a| ==> !IsAlpha(a[i])
    requires forall i :: 0 <= i < |b| ==> !IsAlpha(b[i])
    ensures Replace(TitleFromPath("/" + a + "/" + b), " ", "/") == a + "/" + b
  {
    TitleFromTwoSegments(a, b);
    CapitalizeNoLetters(a, b);
    ReplaceOneSpace(a, b);
  }

  lemma CapitalizeNoLetters(a: string, b: string)
    requires forall i :: 0 <= i < |a| ==> !IsAlpha(a[i])
    requires forall i :: 0 <= i < |b| ==> !IsAlpha(b[i])
    ensures Capitalize(a + " " + b) == a + " " + b
  {
    var x := a + " " + b;
    forall i | 0 <= i < |x| ensures !IsAlpha(x[i]) {
      if i > |a| { assert x[i] == b[i - |a| - 1]; }
    }
  }

  lemma ReplaceOneSpace(a: string, b: string)
    requires ' ' !in a && ' ' !in b
    ensures Replace(a + " " + b, " ", "/") == a + "/" + b
  {
    var x := a + " " + b;
    assert OccursAt(x, " ", |a|);
    forall j: nat | j < |a| ensures !OccursAt(x, " ", j) {
      assert x[j..j + 1][0] == a[j];
    }
    assert Find(x, " ") == Some(|a|);
    assert x[..|a|] == a && x[|a| + 1..] == b;
    ContainsChar(b, ' ');
    SubNoMatch(b, " ", "/", All);
  }

  // ---------------------------------------------------------------------
  // The record
  // ---------------------------------------------------------------------

  /** `Link.data` after `parse()`. */
  datatype Record = Record(
    id: string,
    url: string,
    titleUrl: string,
    title: string,
    authors: string,
    publication: string,
    plain: string,
    markdown: string)

  /** The URL a variant is built from: `IACRLink` rewrites
      `eprint.iacr.org` (at most twice); its `eprint.kobi.one` rewrite is
      computed and discarded. */
  function VariantUrl(kind: Kind, raw: string): (url: string)
    ensures kind != Iacr || !Contains(raw, "eprint.iacr.org") ==> url == raw
    ensures kind == Iacr ==> url == Sub(raw, "eprint.iacr.org", "ia.cr", AtMost(2))
  {
    if kind == Iacr then
      assert !Contains(raw, "eprint.iacr.org") ==> Sub(raw, "eprint.iacr.org", "ia.cr", AtMost(2)) == raw by {
        if !Contains(raw, "eprint.iacr.org") {
          SubNoMatch(raw, "eprint.iacr.org", "ia.cr", AtMost(2));
        }
      }
      Sub(raw, "eprint.iacr.org", "ia.cr", AtMost(2))
    else raw
  }

  /** With at most two `eprint.iacr.org`s, every one is rewritten: the
      URL is its pieces between them, joined by `ia.cr`. */
  lemma IacrUrlRewritten(raw: string)
    requires Occurrences(raw, "eprint.iacr.org") <= 2
    ensures VariantUrl(Iacr, raw) == Join(Split(raw, "eprint.iacr.org"), "ia.cr")
  {
    SubEnough(raw, "eprint.iacr.org", "ia.cr", 2);
    SubAllJoinsSplit(raw, "eprint.iacr.org", "ia.cr");
  }

  /** `Variant(url).parse().data`: construct (normalise, check the URL,
      derive id and `title_url`), then title, authors, publication and the
      two lines. */
  function ParseLink(env: Env, kind: Kind, raw: string): (r: Result<Record>)
    ensures !Accepts(Normalize(VariantUrl(kind, raw))) ==> r == Fail(InvalidUrl(raw))
    ensures r.Ok? ==> r.value.url == Normalize(VariantUrl(kind, raw)) && Accepts(r.value.url)
    ensures r.Ok? ==> r.value.id == HashUrl(env.sha1, r.value.url, Some(DefaultIdLength))
    ensures r.Ok? ==> r.value.titleUrl == TitleFromUrl(Decompose(r.value.url))
    ensures r.Ok? ==> Strip(r.value.title) == r.value.title && Strip(r.value.authors) == r.value.authors
    ensures r.Ok? ==> NoDoubleSpace(r.value.plain)
    ensures Accepts(Normalize(VariantUrl(kind, raw))) ==> !(r.Fail? && r.error.InvalidUrl?)
    ensures r.Ok? ==>
      var t := VariantTitle(env, kind, r.value.url, r.value.titleUrl);
      t.Ok? && r.value.title == Strip(t.value)
    ensures r.Ok? ==>
      var a := VariantAuthors(env, kind, r.value.url, Decompose(r.value.url), r.value.titleUrl);
      a.Ok? && r.value.authors == Strip(a.value)
    ensures r.Ok? ==> r.value.publication == Strip(Publication(Decompose(r.value.url)))
  {
    var url := Normalize(VariantUrl(kind, raw));
    if !Accepts(url) then Fail(InvalidUrl(raw))
    else ParseAccepted(env, kind, url)
  }

  /** The part of `parse` after the URL check: the title, then the
      authors, each of which may be missing, then the record. */
  function ParseAccepted(env: Env, kind: Kind, url: string): (r: Result<Record>)
    requires Accepts(url)
    ensures !(r.Fail? && r.error.InvalidUrl?)
    ensures r.Ok? ==> r.value.url == url
    ensures r.Ok? ==> r.value.id == HashUrl(env.sha1, url, Some(DefaultIdLength))
    ensures r.Ok? ==> r.value.titleUrl == TitleFromUrl(Decompose(url))
    ensures r.Ok? ==> Strip(r.value.title) == r.value.title && Strip(r.value.authors) == r.value.authors
    ensures r.Ok? ==> NoDoubleSpace(r.value.plain)
    ensures r.Ok? ==>
      var t := VariantTitle(env, kind, url, r.value.titleUrl);
      t.Ok? && r.value.title == Strip(t.value)
    ensures r.Ok? ==>
      var a := VariantAuthors(env, kind, url, Decompose(url), r.value.titleUrl);
      a.Ok? && r.value.authors == Strip(a.value)
    ensures r.Ok? ==> r.value.publication == Strip(Publication(Decompose(url)))
  {
    var u := Decompose(url);
    var titleUrl := TitleFromUrl(u);
    match VariantTitle(env, kind, url, titleUrl)
    case Fail(e) => Fail(e)
    case Ok(t) =>
      match VariantAuthors(env, kind, url, u, titleUrl)
      case Fail(e) => Fail(e)
      case Ok(a) => Ok(BuildRecord(env, kind, url, u, titleUrl, t, a))
  }

  /** The record of a link whose title `t` and authors `a` were found:
      `get_title`, `get_authors` and `get_publication` strip what the
      variant returns, and the plain line has its space runs collapsed. */
  function BuildRecord(env: Env, kind: Kind, url: string, u: Url, titleUrl: string, t: string, a: string): (rec: Record)
    ensures rec.url == url && rec.titleUrl == titleUrl
    ensures rec.id == HashUrl(env.sha1, url, Some(DefaultIdLength))
    ensures rec.title == Strip(t) && rec.authors == Strip(a) && rec.publication == Strip(Publication(u))
    ensures Strip(rec.title) == rec.title && Strip(rec.authors) == rec.authors
    ensures rec.plain == CollapseSpaces(PlainLine(kind, url, titleUrl, rec.title, rec.authors, rec.publication))
    ensures NoDoubleSpace(rec.plain)
    ensures rec.markdown == MarkdownLine(kind, url, rec.title, rec.authors, rec.publication)
  {
    var title := Strip(t);
    var authors := Strip(a);
    var pub := Strip(Publication(u));
    StripIdempotent(t);
    StripIdempotent(a);
    Record(
      HashUrl(env.sha1, url, Some(DefaultIdLength)),
      url, titleUrl, title, authors, pub,
      CollapseSpaces(PlainLine(kind, url, titleUrl, title, authors, pub)),
      MarkdownLine(kind, url, title, authors, pub))
  }

  /** A tweet's plain line names the first word of its `title_url`. */
  lemma TwitterPlainLine(env: Env, raw: string)
    requires ParseLink(env, Twitter, raw).Ok?
    ensures var rec := ParseLink(env, Twitter, raw).value;
      rec.plain == CollapseSpaces(rec.url + " | Tweet by @" + rec.authors) &&
      rec.authors == Strip(Split(rec.titleUrl, " ")[0]) &&
      rec.title == Strip(rec.titleUrl)
  {
  }
}
