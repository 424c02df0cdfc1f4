/** The plain-text link reformatter's line handlers, which both versions of
    `txtdoc.py` share character for character: the GitHub, Twitter, podcast
    and YouTube recognisers, the Markdown-link flattener, the generic
    fallback, truncation, the first-changing-handler chain and the
    document set-up. Page fetches are the `Scrapers` parameter. */
module LineFormat {
  import opened Results
  import opened PyStr
  import opened Pattern

  // ---------------------------------------------------------------------
  // Fetched data
  // ---------------------------------------------------------------------

  /** What the scrapers fetch: a page's `<title>` text, a video's oEmbed
      title (None when the JSON reply carries none, or is an error reply),
      and the `content` of every meta tag with a given `name`. Every fetch
      answers: the exceptions `requests` and the parsers raise are not
      modelled. */
  datatype Scrapers = Scrapers(
    htmlTitle: string -> Option<string>,
    ytTitle: string -> Option<string>,
    metaContents: (string, string) -> seq<string>)

  /** `scrape_html_title`: the page title, `No Title` when it is missing
      or empty, with whitespace runs made one space and the ends trimmed. */
  function ScrapeHtmlTitle(sc: Scrapers, url: string): (t: string)
    ensures Strip(t) == t && NoDoubleSpace(t)
    ensures forall i :: 0 <= i < |t| && IsSpace(t[i]) ==> t[i] == ' '
    ensures sc.htmlTitle(url).None? || sc.htmlTitle(url) == Some("") ==> t == "No Title"
    ensures sc.htmlTitle(url).Some? && sc.htmlTitle(url).value != "" ==>
              forall c {:trigger CountChar(t, c)} :: !IsSpace(c) ==>
                CountChar(t, c) == CountChar(sc.htmlTitle(url).value, c)
  {
    var found := sc.htmlTitle(url);
    var raw := if found.Some? && found.value != "" then found.value else "No Title";
    var spaced := CollapseSpaces(raw);
    StripKeepsSpacing(spaced);
    StripIdempotent(spaced);
    assert forall c :: !IsSpace(c) ==> CountChar(Strip(spaced), c) == CountChar(raw, c) by {
      forall c | !IsSpace(c) ensures CountChar(Strip(spaced), c) == CountChar(raw, c) {
        StripCount(spaced, c);
      }
    }
    NoTitleKept();
    Strip(spaced)
  }

  /** The placeholder title has single spacing and no whitespace at its ends. */
  lemma NoTitleKept()
    ensures Strip(CollapseSpaces("No Title")) == "No Title"
  {
    var x, y := "No", "Title";
    assert NoSpace(x) && NoSpace(y);
    assert x + " " + y == "No Title";
    SpacedWords(x, y);
  }

  /** `scrape_yt_title`, given the video id: the oEmbed title, or `No
      Title` when the JSON reply carries none or is an error reply. */
  function ScrapeYtTitle(sc: Scrapers, vid: string): (t: string)
    ensures sc.ytTitle(vid).Some? ==> t == sc.ytTitle(vid).value
    ensures sc.ytTitle(vid).None? ==> t == "No Title"
  {
    sc.ytTitle(vid).GetOr("No Title")
  }

  // ---------------------------------------------------------------------
  // Anchored recognisers
  // ---------------------------------------------------------------------

  /** Length of the `https?://` the line starts with, 0 when none. */
  function HttpLen(s: string): (n: nat)
    ensures n <= |s|
    ensures n == 8 <==> StartsWith(s, "https://")
    ensures n == 7 <==> StartsWith(s, "http://")
    ensures n == 0 <==> !StartsWith(s, "https://") && !StartsWith(s, "http://")
  {
    if StartsWith(s, "https://") then
      assert s[..8][..7] == s[..7] && s[..8][4] == 's';
      8
    else if StartsWith(s, "http://") then 7
    else 0
  }

  /** Every handler's pattern begins with a letter other than `h`, so once
      the line starts with a scheme the regex's retry without the optional
      `(https?://)?` cannot match: reading the pattern right after
      `HttpLen` is the whole of the backtracking. */
  lemma SchemeRetryFails(s: string, p: string)
    requires HttpLen(s) > 0 && |p| > 0 && p[0] != 'h' && p[0] != '.'
    ensures !MatchAt(s, Dotted(p), 0) && !OccursAt(s, p, 0)
  {
    assert s[..7][0] == 'h';
    assert Dotted(p)[0] == Lit(p[0]);
  }

  predicate IsSlashOrSpace(c: char) { c == '/' || c == ' ' }
  predicate IsBlank(c: char) { c == ' ' }
  predicate IsNewline(c: char) { c == '\n' }
  predicate IsCloseBracket(c: char) { c == ']' }
  predicate NotWord(c: char) { !IsWord(c) }

  /** Where a name, a `[^/ ]+` run, starting at `from` ends; None when
      the run is empty. */
  function NameEnd(s: string, from: nat): (e: Option<nat>)
    requires from <= |s|
    ensures e.None? <==> from == |s| || IsSlashOrSpace(s[from])
    ensures e.Some? ==> from < e.value <= |s| && e.value == RunEnd(s, from, IsSlashOrSpace)
  {
    var e := RunEnd(s, from, IsSlashOrSpace);
    if e == from then None else Some(e)
  }

  /** Past one optional `/`. */
  function SkipSlash(s: string, i: nat): (j: nat)
    requires i <= |s|
    ensures j == if i < |s| && s[i] == '/' then i + 1 else i
    ensures j <= |s|
  {
    if i < |s| && s[i] == '/' then i + 1 else i
  }

  /** The spans `_github` and `_twitter` read: the owner or handle
      `s[name..nameEnd]`, the repository or tweet path `s[rest..end]`
      after one optional `/`. */
  datatype Span = Span(name: nat, nameEnd: nat, rest: nat, end: nat)

  /** `host` `[^/ ]+` `/?` `[^<tail stop>]*` read from `at`. */
  function HandleSpan(s: string, at: nat, host: string, tailStop: char -> bool): (m: Option<Span>)
    requires at <= |s|
    ensures m.None? <==>
              !MatchAt(s, Dotted(host), at) || NameEnd(s, at + |host|).None?
    ensures m.Some? ==>
              && m.value.name == at + |host|
              && m.value.nameEnd == NameEnd(s, at + |host|).value
              && m.value.rest == SkipSlash(s, m.value.nameEnd)
              && m.value.end == RunEnd(s, m.value.rest, tailStop)
              && m.value.name < m.value.nameEnd <= m.value.rest <= m.value.end <= |s|
  {
    if !MatchAt(s, Dotted(host), at) then None
    else match NameEnd(s, at + |host|)
      case None => None
      case Some(ne) =>
        var rest := SkipSlash(s, ne);
        Some(Span(at + |host|, ne, rest, RunEnd(s, rest, tailStop)))
  }

  /** `_github`: `^((https?://)?github.com/(([^/ ]+)/?(([^ /]*))))`. */
  function GithubSpan(s: string): Option<Span> {
    HandleSpan(s, HttpLen(s), "github.com/", IsSlashOrSpace)
  }

  /** `_github`: a line starting with a GitHub URL becomes the matched URL,
      the owner (with repository) as a handle, and the site; the rest of
      the line is dropped. Other lines come back unchanged. */
  function Github(s: string): (r: string)
    ensures GithubSpan(s).None? ==> r == s
    ensures GithubSpan(s).Some? ==>
              var m := GithubSpan(s).value;
              r == s[..m.end] + " | @" + s[m.name..m.end] + " | Github"
  {
    match GithubSpan(s)
    case None => s
    case Some(m) => s[..m.end] + " | @" + s[m.name..m.end] + " | Github"
  }

  /** `_twitter`: `^((https?://)?twitter.com/([^/ ]+)/?([^ ]*))`. */
  function TwitterSpan(s: string): Option<Span> {
    HandleSpan(s, HttpLen(s), "twitter.com/", IsBlank)
  }

  /** `Tweet by ` when a non-empty path follows the handle. */
  function TweetBy(m: Span): string {
    if m.rest < m.end then "Tweet by " else ""
  }

  /** `_twitter`: a line starting with a Twitter URL becomes the matched
      URL, `Tweet by ` when a path follows, the handle and the site. */
  function Twitter(s: string): (r: string)
    ensures TwitterSpan(s).None? ==> r == s
    ensures TwitterSpan(s).Some? ==>
              var m := TwitterSpan(s).value;
              r == s[..m.end] + " | " + TweetBy(m) + "@" + s[m.name..m.nameEnd] + " | Twitter"
  {
    match TwitterSpan(s)
    case None => s
    case Some(m) => TwitterLine(s, m)
  }

  function TwitterLine(s: string, m: Span): string
    requires m.name <= m.nameEnd <= m.end <= |s|
  {
    s[..m.end] + " | " + TweetBy(m) + "@" + s[m.name..m.nameEnd] + " | Twitter"
  }

  /** `Tweet by ` appears exactly when the handle is followed by `/` and
      then a character other than a space. */
  lemma TweetByIffPath(s: string)
    requires TwitterSpan(s).Some?
    ensures var m := TwitterSpan(s).value;
            TweetBy(m) == "Tweet by " <==>
              m.nameEnd + 1 < |s| && s[m.nameEnd] == '/' && s[m.nameEnd + 1] != ' '
  {
  }

  /** A run ending at `e` in `s` ends there too in any string agreeing with
      `s` up to `e` and holding a stop character at `e`. */
  lemma RunEndKept(s: string, t: string, from: nat, stop: char -> bool, e: nat)
    requires from <= |s| && RunEnd(s, from, stop) == e
    requires e < |t| && t[..e] == s[..e] && stop(t[e])
    ensures RunEnd(t, from, stop) == e
  {
    forall j | from <= j < e ensures !stop(t[j]) {
      assert t[j] == t[..e][j];
    }
    RunEndAt(t, from, stop, e);
  }

  /** Reading a span again from a line that keeps the matched prefix and
      puts a space right after it finds the same span. */
  lemma {:induction false} HandleSpanKept(s: string, t: string, at: nat, host: string, tailStop: char -> bool)
    requires at <= |s| && HandleSpan(s, at, host, tailStop).Some?
    requires tailStop(' ') && IsSlashOrSpace('/')
    requires var e := HandleSpan(s, at, host, tailStop).value.end;
             e < |t| && t[..e] == s[..e] && t[e] == ' '
    ensures HandleSpan(t, at, host, tailStop) == HandleSpan(s, at, host, tailStop)
  {
    var m := HandleSpan(s, at, host, tailStop).value;
    var e := m.end;
    assert MatchAt(t, Dotted(host), at) by {
      forall j | 0 <= j < |host| ensures AtomMatches(Dotted(host)[j], t[at + j]) {
        assert t[at + j] == t[..e][at + j];
      }
    }
    if m.nameEnd < e {
      assert t[m.nameEnd] == t[..e][m.nameEnd];
    }
    RunEndKept(s, t, m.name, IsSlashOrSpace, m.nameEnd);
    assert SkipSlash(t, m.nameEnd) == m.rest by {
      if m.nameEnd < e { assert t[m.nameEnd] == t[..e][m.nameEnd]; }
    }
    RunEndKept(s, t, m.rest, tailStop, e);
  }

  lemma HttpLenKept(s: string, t: string, e: nat)
    requires 8 <= e <= |s| && e <= |t| && t[..e] == s[..e]
    ensures HttpLen(t) == HttpLen(s)
  {
    assert t[..8] == s[..8] && t[..7] == s[..7];
  }

  /** A reformatted GitHub line is left as it is by a second pass. */
  lemma GithubIdempotent(s: string)
    ensures Github(Github(s)) == Github(s)
  {
    if GithubSpan(s).Some? {
      var m := GithubSpan(s).value;
      var t := Github(s);
      assert t[..m.end] == s[..m.end] && t[m.end] == ' ';
      HttpLenKept(s, t, m.end);
      HandleSpanKept(s, t, HttpLen(s), "github.com/", IsSlashOrSpace);
      assert t[..m.end][m.name..m.end] == t[m.name..m.end];
    }
  }

  /** A reformatted Twitter line is left as it is by a second pass. */
  lemma TwitterIdempotent(s: string)
    ensures Twitter(Twitter(s)) == Twitter(s)
  {
    if TwitterSpan(s).Some? {
      var m := TwitterSpan(s).value;
      var t := TwitterLine(s, m);
      assert t[..m.end] == s[..m.end] && t[m.end] == ' ';
      TwitterSpanKept(s, t);
      TwitterLineKept(s, t, m);
    }
  }

  lemma TwitterLineKept(s: string, t: string, m: Span)
    requires m.name <= m.nameEnd <= m.end <= |s| && m.end <= |t|
    requires t[..m.end] == s[..m.end]
    ensures TwitterLine(t, m) == TwitterLine(s, m)
  {
    SamePrefixSlice(s, t, m.end, m.name, m.nameEnd);
  }

  lemma TwitterSpanKept(s: string, t: string)
    requires TwitterSpan(s).Some?
    requires var e := TwitterSpan(s).value.end;
             e < |t| && t[..e] == s[..e] && t[e] == ' '
    ensures TwitterSpan(t) == TwitterSpan(s)
  {
    HttpLenKept(s, t, TwitterSpan(s).value.end);
    HandleSpanKept(s, t, HttpLen(s), "twitter.com/", IsBlank);
  }

  /** `_zkfm`: `^((https?://)?zeroknowledge.fm/([^/ ]+))`, the match end. */
  function ZkfmEnd(s: string): (e: Option<nat>)
    ensures e.Some? ==> HttpLen(s) + 17 < e.value <= |s|
    ensures e.Some? <==> MatchAt(s, Dotted("zeroknowledge.fm/"), HttpLen(s))
                         && NameEnd(s, HttpLen(s) + 17).Some?
  {
    var at := HttpLen(s);
    if !MatchAt(s, Dotted("zeroknowledge.fm/"), at) then None
    else NameEnd(s, at + 17)
  }

  /** `re.sub('- ZK Podcast$', '| ZK Podcast', t)`: `$` matches at the
      end or just before a final newline. */
  function PodcastSuffix(t: string): (r: string)
    ensures EndsWith(t, "- ZK Podcast") ==> EndsWith(r, "| ZK Podcast") && OnlyDashBarred(t, r, |t| - 12)
    ensures !EndsWith(t, "- ZK Podcast") && EndsWith(t, "- ZK Podcast\n") ==>
              EndsWith(r, "| ZK Podcast\n") && OnlyDashBarred(t, r, |t| - 13)
    ensures !EndsWith(t, "- ZK Podcast") && !EndsWith(t, "- ZK Podcast\n") ==> r == t
  {
    if EndsWith(t, "- ZK Podcast") then
      var r := t[..|t| - 12] + "| ZK Podcast";
      assert r[|r| - 11..] == t[|t| - 11..];
      r
    else if EndsWith(t, "- ZK Podcast\n") then
      var r := t[..|t| - 13] + "| ZK Podcast\n";
      assert r[|r| - 12..] == t[|t| - 12..];
      r
    else t
  }

  /** `r` is `t` with the `-` at `d` made a `|`, every other character kept. */
  predicate OnlyDashBarred(t: string, r: string, d: int) {
    0 <= d < |t| && |r| == |t| && t[d] == '-' && r[d] == '|'
    && forall i :: 0 <= i < |t| && i != d ==> r[i] == t[i]
  }

  /** `_zkfm`: the matched episode URL and its page title, with the
      podcast suffix set off by `|` and `Episode` shortened to `Ep`. */
  function Zkfm(sc: Scrapers, s: string): (r: string)
    ensures ZkfmEnd(s).None? ==> r == s
    ensures ZkfmEnd(s).Some? ==> StartsWith(r, s[..ZkfmEnd(s).value] + " | ")
    ensures ZkfmEnd(s).Some? ==> r[ZkfmEnd(s).value + 3..] == EpisodeTitle(sc, s[..ZkfmEnd(s).value])
  {
    match ZkfmEnd(s)
    case None => s
    case Some(e) =>
      var url := s[..e];
      assert |url| == e;
      Labelled(url, EpisodeTitle(sc, url))
  }

  /** The episode page's title with the podcast suffix set off by `|` and
      every `Episode` shortened to `Ep`. */
  function EpisodeTitle(sc: Scrapers, url: string): (t: string)
    ensures t == Join(Split(PodcastSuffix(ScrapeHtmlTitle(sc, url)), "Episode"), "Ep")
  {
    SubAllJoinsSplit(PodcastSuffix(ScrapeHtmlTitle(sc, url)), "Episode", "Ep");
    Replace(PodcastSuffix(ScrapeHtmlTitle(sc, url)), "Episode", "Ep")
  }

  /** The scraped title holds no newline, so only the first form of the
      podcast suffix can apply to it. */
  lemma EpisodeSuffix(sc: Scrapers, url: string)
    ensures var t := ScrapeHtmlTitle(sc, url);
            !EndsWith(t, "- ZK Podcast") ==> PodcastSuffix(t) == t
  {
    var t := ScrapeHtmlTitle(sc, url);
    TrimmedEnd(t, "- ZK Podcast\n");
  }

  lemma TrimmedEnd(t: string, p: string)
    requires Strip(t) == t && p != [] && IsSpace(p[|p| - 1])
    ensures !EndsWith(t, p)
  {
  }

  /** `f'{url} | {tag}'`. */
  function Labelled(url: string, tag: string): (r: string)
    ensures StartsWith(r, url + " | ") && r[|url| + 3..] == tag
  {
    var r := url + " | " + tag;
    assert r[..|url| + 3] == url + " | ";
    r
  }

  /** Where a video id starts and ends. */
  datatype Video = Video(id: nat, end: nat)

  /** `/?(\w+)` from `m`: when the `/` is taken but no word follows, the
      retry without it fails on the `/` itself. */
  function VideoFrom(s: string, m: nat): (v: Option<Video>)
    requires m <= |s|
    ensures v.Some? ==> v.value.id == SkipSlash(s, m) < v.value.end <= |s|
    ensures v.Some? ==> v.value.end == RunEnd(s, v.value.id, NotWord)
    ensures v.None? <==> SkipSlash(s, m) == |s| || !IsWord(s[SkipSlash(s, m)])
  {
    var i := SkipSlash(s, m);
    var e := RunEnd(s, i, NotWord);
    if e > i then Some(Video(i, e)) else None
  }

  /** `youtu\.?be(.com)?/?(\w+)` read from `at`. Dropping the optional
      `\.` cannot help (a `.` is not `b`); dropping `(.com)` can. */
  function YoutubeFrom(s: string, at: nat): (v: Option<Video>)
    requires at <= |s|
    ensures v.Some? ==> OccursAt(s, "youtu", at) && at + 7 <= v.value.id < v.value.end <= |s|
  {
    if !OccursAt(s, "youtu", at) then None
    else
      var b := if at + 5 < |s| && s[at + 5] == '.' then at + 6 else at + 5;
      if !OccursAt(s, "be", b) then None
      else
        var k := b + 2;
        var withCom := if MatchAt(s, Dotted(".com"), k) then VideoFrom(s, k + 4) else None;
        if withCom.Some? then withCom else VideoFrom(s, k)
  }

  /** One way `youtu\.?be(.com)?/?(\w+)` matches at `at`, the id being the
      whole word run the greedy `\w+` takes: with or without the `.`, the
      any-character `.com` and the `/`. */
  ghost predicate YtReading(s: string, at: nat, dot: bool, com: bool, slash: bool, v: Video) {
    var b := at + 5 + (if dot then 1 else 0);
    var m := b + 2 + (if com then 4 else 0);
    && OccursAt(s, "youtu", at)
    && (dot ==> at + 5 < |s| && s[at + 5] == '.')
    && OccursAt(s, "be", b)
    && (com ==> MatchAt(s, Dotted(".com"), b + 2))
    && (slash ==> m < |s| && s[m] == '/')
    && v.id == m + (if slash then 1 else 0)
    && v.id < v.end <= |s|
    && (forall j :: v.id <= j < v.end ==> IsWord(s[j]))
    && (v.end == |s| || !IsWord(s[v.end]))
  }

  /** What `YoutubeFrom` finds is a reading of the pattern. */
  lemma YoutubeFromReads(s: string, at: nat) returns (dot: bool, com: bool, slash: bool)
    requires at <= |s| && YoutubeFrom(s, at).Some?
    ensures YtReading(s, at, dot, com, slash, YoutubeFrom(s, at).value)
  {
    var v := YoutubeFrom(s, at).value;
    dot := at + 5 < |s| && s[at + 5] == '.';
    var k := at + 5 + (if dot then 1 else 0) + 2;
    com := MatchAt(s, Dotted(".com"), k) && VideoFrom(s, k + 4).Some?;
    var m := k + (if com then 4 else 0);
    slash := m < |s| && s[m] == '/';
  }

  /** The reading with `.com` wins whenever there is one. */
  lemma YoutubeFromPrefersCom(s: string, at: nat, dot: bool, slash: bool, v: Video)
    requires at <= |s| && YtReading(s, at, dot, true, slash, v)
    ensures YoutubeFrom(s, at) == Some(v)
  {
    var k := at + 5 + (if dot then 1 else 0) + 2;
    if !dot {
      assert s[at + 5] == 'b';
    }
    if !slash {
      assert IsWord(s[k + 4]);
    }
    RunEndAt(s, v.id, NotWord, v.end);
  }

  /** Without a `.com` reading, the reading without it is the match. */
  lemma YoutubeFromFallsBack(s: string, at: nat, dot: bool, slash: bool, v: Video)
    requires at <= |s| && YtReading(s, at, dot, false, slash, v)
    requires forall d, sl, w :: !YtReading(s, at, d, true, sl, w)
    ensures YoutubeFrom(s, at) == Some(v)
  {
    var k := at + 5 + (if dot then 1 else 0) + 2;
    if !dot {
      assert s[at + 5] == 'b';
    }
    NoComVideo(s, at, dot, k);
    ReadingVideo(s, k, slash, v);
  }

  /** Without a `.com` reading, `.com` followed by a word is not there. */
  lemma NoComVideo(s: string, at: nat, dot: bool, k: nat)
    requires k == at + 5 + (if dot then 1 else 0) + 2 <= |s|
    requires OccursAt(s, "youtu", at) && (dot ==> s[at + 5] == '.') && OccursAt(s, "be", k - 2)
    requires forall d, sl, w :: !YtReading(s, at, d, true, sl, w)
    ensures !(MatchAt(s, Dotted(".com"), k) && VideoFrom(s, k + 4).Some?)
  {
    if MatchAt(s, Dotted(".com"), k) && VideoFrom(s, k + 4).Some? {
      var w := VideoFrom(s, k + 4).value;
      var sl := k + 4 < |s| && s[k + 4] == '/';
      assert YtReading(s, at, dot, true, sl, w);
    }
  }

  /** The optional `/` and the word run after it are what `VideoFrom`
      reads. */
  lemma ReadingVideo(s: string, m: nat, slash: bool, v: Video)
    requires m <= |s| && (slash ==> m < |s| && s[m] == '/')
    requires v.id == m + (if slash then 1 else 0) && v.id < v.end <= |s|
    requires forall j :: v.id <= j < v.end ==> IsWord(s[j])
    requires v.end == |s| || !IsWord(s[v.end])
    ensures VideoFrom(s, m) == Some(v)
  {
    if !slash {
      assert IsWord(s[m]);
    }
    RunEndAt(s, v.id, NotWord, v.end);
  }

  /** Any reading of the pattern makes `YoutubeFrom` succeed. */
  lemma YoutubeFromComplete(s: string, at: nat, dot: bool, com: bool, slash: bool, v: Video)
    requires at <= |s| && YtReading(s, at, dot, com, slash, v)
    ensures YoutubeFrom(s, at).Some?
  {
    if com {
      YoutubeFromPrefersCom(s, at, dot, slash, v);
    } else if forall d, sl, w :: !YtReading(s, at, d, true, sl, w) {
      YoutubeFromFallsBack(s, at, dot, slash, v);
    } else {
      var d, sl, w :| YtReading(s, at, d, true, sl, w);
      YoutubeFromPrefersCom(s, at, d, sl, w);
    }
  }

  /** When `.com` reads four characters but no id follows them, the match
      drops it: `youtubeXcom` is read as the id `Xcom`. */
  lemma YoutubeComRetried()
    ensures YoutubeFrom("youtubeXcom", 0) == Some(Video(7, 11))
  {
    var s := "youtubeXcom";
    assert OccursAt(s, "youtu", 0) && OccursAt(s, "be", 5) && s[5] != '.';
    assert MatchAt(s, Dotted(".com"), 7) by {
      assert Dotted(".com")[0] == AnyButNewline;
    }
    assert VideoFrom(s, 11).None?;
    RunEndAt(s, 7, NotWord, 11);
  }

  /** `YoutubeFrom` succeeds exactly when the pattern has a reading. */
  lemma YoutubeFromIffReading(s: string, at: nat)
    requires at <= |s|
    ensures YoutubeFrom(s, at).Some? <==> exists dot, com, slash, w :: YtReading(s, at, dot, com, slash, w)
  {
    if YoutubeFrom(s, at).Some? {
      var d, c, sl := YoutubeFromReads(s, at);
    }
    if exists dot, com, slash, w :: YtReading(s, at, dot, com, slash, w) {
      var dot, com, slash, w :| YtReading(s, at, dot, com, slash, w);
      YoutubeFromComplete(s, at, dot, com, slash, w);
    }
  }

  /** `_youtube`: `^((https?://)?(youtu\.?be(.com)?)/?(\w+))`, read after
      the scheme. */
  function YoutubeSpan(s: string): (v: Option<Video>)
    ensures v.Some? <==> exists dot, com, slash, w :: YtReading(s, HttpLen(s), dot, com, slash, w)
    ensures v.Some? ==> HttpLen(s) + 7 <= v.value.id < v.value.end <= |s|
  {
    YoutubeFromIffReading(s, HttpLen(s));
    YoutubeFrom(s, HttpLen(s))
  }

  /** `_youtube`: the matched URL and the video's oEmbed title. */
  function Youtube(sc: Scrapers, s: string): (r: string)
    ensures YoutubeSpan(s).None? ==> r == s
    ensures YoutubeSpan(s).Some? ==>
              var v := YoutubeSpan(s).value;
              StartsWith(r, s[..v.end] + " | ")
              && r[v.end + 3..] == ScrapeYtTitle(sc, s[v.id..v.end])
  {
    match YoutubeSpan(s)
    case None => s
    case Some(v) => Labelled(s[..v.end], ScrapeYtTitle(sc, s[v.id..v.end]))
  }

  // ---------------------------------------------------------------------
  // _force_simple
  // ---------------------------------------------------------------------

  /** A Markdown link `[txt](url)` whose `[` is at `open`: the text runs
      to `close`, the URL from `close + 2` to `urlEnd`. */
  datatype MdLink = MdLink(open: nat, close: nat, urlEnd: nat)

  /** The last `)` in `s[lo..hi]`. */
  function LastParen(s: string, lo: nat, hi: nat): (p: Option<nat>)
    requires lo <= hi <= |s|
    ensures p.Some? ==> lo <= p.value < hi && s[p.value] == ')'
    ensures p.Some? ==> forall j :: p.value < j < hi ==> s[j] != ')'
    ensures p.None? ==> forall j :: lo <= j < hi ==> s[j] != ')'
    decreases hi - lo
  {
    if hi == lo then None
    else if s[hi - 1] == ')' then Some(hi - 1)
    else LastParen(s, lo, hi - 1)
  }

  /** `\[([^\]]+)\]\((.+)\)` tried at `i`: the text is greedy up to the
      first `]`; the URL is greedy over non-newlines and backs off to the
      last `)` of that run. */
  function MdAt(s: string, i: nat): (m: Option<MdLink>)
    ensures m.Some? ==> m.value.open == i && i + 1 < m.value.close && m.value.close + 2 < m.value.urlEnd < |s|
    ensures m.Some? ==>
              && s[i] == '['
              && m.value.close == RunEnd(s, i + 1, IsCloseBracket)
              && s[m.value.close] == ']' && s[m.value.close + 1] == '('
              && s[m.value.urlEnd] == ')'
              && m.value.urlEnd < RunEnd(s, m.value.close + 2, IsNewline)
              && forall j :: m.value.urlEnd < j < RunEnd(s, m.value.close + 2, IsNewline) ==> s[j] != ')'
  {
    if i >= |s| || s[i] != '[' then None
    else
      var close := RunEnd(s, i + 1, IsCloseBracket);
      if close == i + 1 || close + 1 >= |s| || s[close + 1] != '(' then None
      else
        var line := RunEnd(s, close + 2, IsNewline);
        if line < close + 3 then None
        else match LastParen(s, close + 3, line)
          case None => None
          case Some(p) => Some(MdLink(i, close, p))
  }

  /** `re.search` of the Markdown-link pattern from `i`: the leftmost `[`
      at which it matches. */
  function FirstMd(s: string, i: nat): (m: Option<MdLink>)
    ensures m.Some? ==> i <= m.value.open && MdAt(s, m.value.open) == m
    ensures m.Some? ==> forall j :: i <= j < m.value.open ==> MdAt(s, j).None?
    ensures m.None? ==> forall j :: i <= j < |s| ==> MdAt(s, j).None?
    decreases |s| - i
  {
    if i >= |s| then None
    else match MdAt(s, i)
      case Some(l) => Some(l)
      case None => FirstMd(s, i + 1)
  }

  /** The language of the Markdown-link pattern, stated directly: a `[`,
      a non-empty text without `]`, `](`, a non-empty URL without newline
      and a `)`. */
  ghost predicate MdLinkAt(s: string, i: nat, close: nat, p: nat) {
    && i + 1 < close && close + 2 < p < |s|
    && s[i] == '[' && s[close] == ']' && s[close + 1] == '(' && s[p] == ')'
    && (forall j :: i < j < close ==> s[j] != ']')
    && (forall j :: close + 2 <= j < p ==> s[j] != '\n')
  }

  ghost predicate HasMdLink(s: string) {
    exists i: nat, close: nat, p: nat :: MdLinkAt(s, i, close, p)
  }

  /** What `MdAt` finds is a link in the direct sense. */
  lemma MdAtIsLink(s: string, i: nat)
    requires MdAt(s, i).Some?
    ensures MdLinkAt(s, i, MdAt(s, i).value.close, MdAt(s, i).value.urlEnd)
  {
  }

  /** Any link in the direct sense is found by `MdAt` at its `[`. */
  lemma LinkFoundAt(s: string, i: nat, close: nat, p: nat)
    requires MdLinkAt(s, i, close, p)
    ensures MdAt(s, i).Some?
  {
    RunEndAt(s, i + 1, IsCloseBracket, close);
    var line := RunEnd(s, close + 2, IsNewline);
    assert p < line by {
      assert forall j :: close + 2 <= j <= p ==> s[j] != '\n';
    }
    assert close + 3 <= p < line;
  }

  /** The search succeeds exactly when the line holds a Markdown link. */
  lemma FirstMdIffLink(s: string)
    ensures FirstMd(s, 0).Some? <==> HasMdLink(s)
  {
    if FirstMd(s, 0).Some? {
      var m := FirstMd(s, 0).value;
      MdAtIsLink(s, m.open);
    }
    if HasMdLink(s) {
      var i: nat, close: nat, p: nat :| MdLinkAt(s, i, close, p);
      LinkFoundAt(s, i, close, p);
    }
  }

  /** `_force_simple`: a line holding a Markdown link becomes exactly
      `url | txt`, where everything outside the link is dropped; other
      lines are unchanged. */
  function ForceSimple(s: string): (r: string)
    ensures HasMdLink(s) <==> FirstMd(s, 0).Some?
    ensures !HasMdLink(s) ==> r == s
    ensures HasMdLink(s) ==>
              var m := FirstMd(s, 0).value;
              && MdLinkAt(s, m.open, m.close, m.urlEnd)
              && r == s[m.close + 2..m.urlEnd] + " | " + s[m.open + 1..m.close]
  {
    FirstMdIffLink(s);
    match FirstMd(s, 0)
    case None => s
    case Some(m) =>
      MdAtIsLink(s, m.open);
      s[m.close + 2..m.urlEnd] + " | " + s[m.open + 1..m.close]
  }

  /** A line without `[` holds no link. */
  lemma NoBracketNoLink(s: string)
    requires '[' !in s
    ensures ForceSimple(s) == s
  {
  }

  /** A line that starts with a link `[a](b)` and has no `)` or newline
      after it is flattened to `b | a`: the text in the brackets goes after
      the `|`, the text in the parentheses before it, and the rest of the
      line is dropped. */
  lemma FlattenLinkThen(a: string, b: string, rest: string)
    requires a != [] && ']' !in a
    requires b != [] && '\n' !in b
    requires ')' !in rest && '\n' !in rest
    ensures ForceSimple("[" + a + "](" + b + ")" + rest) == b + " | " + a
  {
    var s := "[" + a + "](" + b + ")" + rest;
    var close := |a| + 1;
    var p := close + 2 + |b|;
    LinkLineParts(a, b, rest);
    forall j | 1 <= j < close ensures s[j] != ']' {
      assert s[j] == s[1..close][j - 1];
    }
    forall j | close + 2 <= j < p ensures s[j] != '\n' {
      assert s[j] == s[close + 2..p][j - close - 2];
    }
    forall j | p < j < |s| ensures s[j] != ')' && s[j] != '\n' {
      assert s[j] == s[p + 1..][j - p - 1];
    }
    FlattenShape(s, close, p, a, b);
  }

  /** Where the pieces of `[a](b)rest` sit. */
  lemma LinkLineParts(a: string, b: string, rest: string)
    ensures var s := "[" + a + "](" + b + ")" + rest;
            var close := |a| + 1;
            var p := close + 2 + |b|;
            && |s| == p + 1 + |rest|
            && s[0] == '[' && s[close] == ']' && s[close + 1] == '(' && s[p] == ')'
            && s[1..close] == a && s[close + 2..p] == b && s[p + 1..] == rest
  {
  }

  /** A line with `[` at 0, its first `]` at `close`, `(` after it, no
      newline after that and its last `)` at `p` is flattened to the
      text in the parentheses, ` | `, the text in the brackets. */
  lemma FlattenShape(s: string, close: nat, p: nat, a: string, b: string)
    requires 1 < close && close + 2 < p < |s|
    requires s[1..close] == a && s[close + 2..p] == b
    requires s[0] == '[' && s[close] == ']' && s[close + 1] == '(' && s[p] == ')'
    requires forall j :: 1 <= j < close ==> s[j] != ']'
    requires forall j :: close + 2 <= j < p ==> s[j] != '\n'
    requires forall j :: p < j < |s| ==> s[j] != ')' && s[j] != '\n'
    ensures ForceSimple(s) == b + " | " + a
  {
    forall j | 1 <= j < close ensures !IsCloseBracket(s[j]) { }
    RunEndAt(s, 1, IsCloseBracket, close);
    forall j | close + 2 <= j < |s| ensures !IsNewline(s[j]) { }
    RunEndAt(s, close + 2, IsNewline, |s|);
    assert LastParen(s, close + 3, |s|) == Some(p);
    assert MdAt(s, 0) == Some(MdLink(0, close, p));
    assert FirstMd(s, 0) == Some(MdLink(0, close, p));
    FirstMdIffLink(s);
  }

  /** A line that is exactly one link `[a](b)` is flattened to `b | a`. */
  lemma FlattenWrittenLink(a: string, b: string)
    requires a != [] && ']' !in a
    requires b != [] && '\n' !in b
    ensures ForceSimple("[" + a + "](" + b + ")") == b + " | " + a
  {
    assert "[" + a + "](" + b + ")" + [] == "[" + a + "](" + b + ")";
    FlattenLinkThen(a, b, []);
  }

  /** One trailing newline is all `strip()` removes from a text that
      starts and ends with a non-space. */
  lemma StripTrailingNewline(x: string)
    requires x != [] && !IsSpace(x[0]) && !IsSpace(x[|x| - 1])
    ensures Strip(x + "\n") == x
  {
  }

  /** A written link with its newline, trimmed and flattened, gives back
      `b | a`. */
  lemma FlattenWrittenLine(a: string, b: string)
    requires a != [] && ']' !in a
    requires b != [] && '\n' !in b
    ensures ForceSimple(Strip("[" + a + "](" + b + ")\n")) == b + " | " + a
  {
    var x := "[" + a + "](" + b + ")";
    assert x + "\n" == "[" + a + "](" + b + ")\n";
    StripTrailingNewline(x);
    FlattenWrittenLink(a, b);
  }

  // ---------------------------------------------------------------------
  // _default
  // ---------------------------------------------------------------------

  /** The domain `s[start..end]` read by `_default`. */
  datatype Site = Site(start: nat, end: nat)

  /** `^(((https?://)<?>([^/ ]+))...`: the domain after the scheme; when
      the scheme is optional and the domain after it is empty, the retry
      without the scheme reads the domain from the line's start. */
  function SiteOf(s: string, schemeOptional: bool): (d: Option<Site>)
    ensures d.Some? ==> d.value.start < d.value.end <= |s|
    ensures d.Some? ==> d.value.end == RunEnd(s, d.value.start, IsSlashOrSpace)
    ensures d.Some? ==> d.value.start == HttpLen(s) || (schemeOptional && d.value.start == 0)
    ensures d.Some? && d.value.start == 0 ==> NameEnd(s, HttpLen(s)).None? || HttpLen(s) == 0
    ensures d.None? <==>
              (HttpLen(s) == 0 || NameEnd(s, HttpLen(s)).None?)
              && (!schemeOptional || NameEnd(s, 0).None?)
  {
    var n := HttpLen(s);
    var withScheme := if n > 0 then NameEnd(s, n) else None;
    match withScheme
    case Some(e) => Some(Site(n, e))
    case None =>
      if !schemeOptional then None
      else match NameEnd(s, 0)
        case Some(e) => Some(Site(0, e))
        case None => None
  }

  /** `(/([^ ]+))?` after the domain: where the path ends, when present. */
  function PathEnd(s: string, d: nat): (p: Option<nat>)
    requires d <= |s|
    ensures p.Some? <==> d + 1 < |s| && s[d] == '/' && s[d + 1] != ' '
    ensures p.Some? ==> d + 1 < p.value <= |s| && p.value == RunEnd(s, d + 1, IsBlank)
  {
    if d + 1 < |s| && s[d] == '/' && s[d + 1] != ' ' then Some(RunEnd(s, d + 1, IsBlank)) else None
  }

  /** `re.sub(r'/\s*$', '', path)`: a `/` followed only by whitespace is
      cut off together with it. */
  function SlashTrimmed(path: string): (r: string)
    ensures EndsWith(RStrip(path), "/") ==> r + "/" == RStrip(path)
    ensures !EndsWith(RStrip(path), "/") ==> r == path
  {
    var q := RStrip(path);
    if |q| > 0 && q[|q| - 1] == '/' then
      assert q[..|q| - 1] + "/" == q;
      q[..|q| - 1]
    else path
  }

  /** A `/` followed by nothing but whitespace is cut, together with the
      whitespace, and what precedes it is kept whole. */
  lemma SlashTrimmedCut(a: string, ws: string)
    requires forall i :: 0 <= i < |ws| ==> IsSpace(ws[i])
    ensures SlashTrimmed(a + "/" + ws) == a
  {
    var path := a + "/" + ws;
    RStripAt(path, |a| + 1);
    assert path[..|a| + 1] == a + "/";
  }

  /** A path whose last non-whitespace character is not `/` is kept whole,
      trailing whitespace included. */
  lemma SlashTrimmedKeeps(a: string, ws: string)
    requires a != [] && !IsSpace(a[|a| - 1]) && a[|a| - 1] != '/'
    requires forall i :: 0 <= i < |ws| ==> IsSpace(ws[i])
    ensures SlashTrimmed(a + ws) == a + ws
  {
    var path := a + ws;
    RStripAt(path, |a|);
    assert path[..|a|] == a;
  }

  predicate IsDashOrUnderscore(c: char) { c == '-' || c == '_' }

  /** `[\w\s.]`: what `re.sub(r'[^\w\s.]', '', t)` keeps. */
  predicate IsTitleChar(c: char) { IsWord(c) || IsSpace(c) || c == '.' }

  /** A title derived from a URL path: the last segment, with `-`/`_`
      runs made spaces, other punctuation removed, and title-cased. */
  function PathTitle(path: string): (t: string)
    ensures forall i :: 0 <= i < |t| ==> IsTitleChar(t[i]) && t[i] != '_'
    ensures forall i :: 0 <= i < |t| && IsAlpha(t[i]) ==>
              (IsUpper(t[i]) <==> (i == 0 || !IsAlpha(t[i - 1])))
  {
    var segment := Last(Split(SlashTrimmed(path), "/"));
    var spaced := ReplaceRuns(segment, IsDashOrUnderscore, ' ');
    var kept := Filter(spaced, IsTitleChar);
    KeptNoUnderscore(spaced, kept);
    Title(kept)
  }

  /** Once every `_` became a space, filtering brings none back. */
  lemma KeptNoUnderscore(spaced: string, kept: string)
    requires forall i :: 0 <= i < |spaced| && IsDashOrUnderscore(spaced[i]) ==> spaced[i] == ' '
    requires forall c :: c in kept ==> c in spaced
    ensures forall i :: 0 <= i < |kept| ==> kept[i] != '_'
  {
    forall i | 0 <= i < |kept| ensures kept[i] != '_' {
      assert kept[i] in spaced;
      var k :| 0 <= k < |spaced| && spaced[k] == kept[i];
    }
  }

  /** The title only depends on the last path segment. */
  lemma PathTitleLastSegment(a: string, w: string)
    requires w != [] && !IsSpace(w[|w| - 1]) && w[|w| - 1] != '/'
    requires !Contains(w, "/")
    ensures PathTitle(a + "/" + w) == PathTitle(w)
  {
    var s := a + "/" + w;
    assert RStrip(s) == s && RStrip(w) == w;
    assert SlashTrimmed(s) == s && SlashTrimmed(w) == w;
    SplitLastAfter(a, w, "/");
    assert Find(w, "/").None?;
  }

  /** The URL `_default` reports: the line up to the end of the path when
      there is one, else up to the end of the domain. */
  function SiteUrl(s: string, d: Site): (url: string)
    requires d.end <= |s|
    ensures StartsWith(s, url) && d.end <= |url|
    ensures |url| > d.end ==>
              && d.end + 2 <= |url| && s[d.end] == '/'
              && (forall j :: d.end < j < |url| ==> s[j] != ' ')
              && (|url| == |s| || s[|url|] == ' ')
    ensures |url| == d.end ==> d.end + 1 >= |s| || s[d.end] != '/' || s[d.end + 1] == ' '
  {
    match PathEnd(s, d.end)
    case Some(p) => s[..p]
    case None => s[..d.end]
  }

  /** The title `_default` reports: derived from the path when there is
      one, else the page title. */
  function SiteTitle(sc: Scrapers, s: string, d: Site): string
    requires d.end <= |s|
  {
    match PathEnd(s, d.end)
    case Some(p) => PathTitle(s[d.end + 1..p])
    case None => ScrapeHtmlTitle(sc, s[..d.end])
  }

  /** `_default`: a line starting with a URL becomes `url | title |
      domain`; other lines are unchanged. */
  function Default(sc: Scrapers, s: string, schemeOptional: bool): (r: string)
    ensures SiteOf(s, schemeOptional).None? ==> r == s
    ensures SiteOf(s, schemeOptional).Some? ==>
              var d := SiteOf(s, schemeOptional).value;
              r == SiteUrl(s, d) + " | " + SiteTitle(sc, s, d) + " | " + s[d.start..d.end]
  {
    match SiteOf(s, schemeOptional)
    case None => s
    case Some(d) => SiteUrl(s, d) + " | " + SiteTitle(sc, s, d) + " | " + s[d.start..d.end]
  }

  /** With the scheme required, a line not starting with `http://` or
      `https://` is returned unchanged. */
  lemma DefaultNeedsScheme(sc: Scrapers, s: string)
    requires !StartsWith(s, "http://") && !StartsWith(s, "https://")
    ensures Default(sc, s, false) == s
  {
  }

  /** With the scheme optional, a trimmed line is read as a URL unless it
      is empty or starts with `/`. */
  lemma OptionalSchemeReadsAll(s: string)
    requires Strip(s) == s
    ensures SiteOf(s, true).None? <==> s == [] || s[0] == '/'
  {
    if s != [] {
      assert !IsSpace(s[0]);
      if s[0] == '/' {
        SlashNoScheme(s);
      }
    }
  }

  /** A line starting with `/` has no `http(s)://` scheme. */
  lemma SlashNoScheme(s: string)
    requires s != [] && s[0] == '/'
    ensures HttpLen(s) == 0
  {
    if |s| >= 7 {
      assert s[..7][0] == '/';
    }
    if |s| >= 8 {
      assert s[..8][0] == '/';
    }
  }

  // ---------------------------------------------------------------------
  // _truncate, the handler chain, the document
  // ---------------------------------------------------------------------

  /** `_truncate`: `s[:L-4] + "..."`. */
  function Truncate(s: string, limit: int): (r: string)
    ensures EndsWith(r, "...") && StartsWith(s, r[..|r| - 3])
    ensures limit >= 4 ==> |r| == (if |s| < limit - 4 then |s| else limit - 4) + 3
    ensures limit >= 4 ==> |r| <= limit - 1
  {
    var kept := SliceTo(s, limit - 4);
    var r := kept + "...";
    assert r[..|r| - 3] == kept;
    r
  }

  /** The index of the first handler that changes the line, from `from`. */
  function FirstChange(hs: seq<string -> string>, line: string, from: nat): (k: Option<nat>)
    ensures k.Some? ==> from <= k.value < |hs| && hs[k.value](line) != line
    ensures k.Some? ==> forall j :: from <= j < k.value ==> hs[j](line) == line
    ensures k.None? ==> forall j :: from <= j < |hs| ==> hs[j](line) == line
    decreases |hs| - from
  {
    if from >= |hs| then None
    else if hs[from](line) != line then Some(from)
    else FirstChange(hs, line, from + 1)
  }

  /** The `for ... else` of `_process_line`: the output of the first
      handler that changes the line, or the fallback's. */
  function Chain(hs: seq<string -> string>, fallback: string -> string, line: string): (r: string)
    ensures (forall j :: 0 <= j < |hs| ==> hs[j](line) == line) ==> r == fallback(line)
    ensures forall k :: (0 <= k < |hs| && hs[k](line) != line
                         && (forall j :: 0 <= j < k ==> hs[j](line) == line)) ==> r == hs[k](line)
  {
    match FirstChange(hs, line, 0)
    case None => fallback(line)
    case Some(k) => hs[k](line)
  }

  /** The two Markdown fields of a reformatted line: the text before the
      first `|`, and all the text after it, each trimmed. */
  datatype Fields = Fields(url: string, txt: string)

  function MdFields(line: string): (f: Fields)
    ensures Find(line, "|").None? ==> f == Fields(Strip(line), "")
    ensures Find(line, "|").Some? ==>
              var i := Find(line, "|").value;
              f == Fields(Strip(line[..i]), Strip(line[i + 1..]))
  {
    var parts := Split(line, "|");
    SplitTail(line, "|");
    SplitHead(line, "|");
    var head, tail := parts[0], Join(parts[1..], "|");
    assert Find(line, "|").None? ==> head == line && tail == "";
    assert Find(line, "|").Some? ==>
             head == line[..Find(line, "|").value] && tail == line[Find(line, "|").value + 1..];
    Fields(Strip(head), Strip(tail))
  }

  /** `txt.strip().strip('\n').strip()`. */
  function TextIn(txt: string): (t: string)
    ensures t == Strip(txt)
  {
    var once := Strip(txt);
    var nl := RStripChar(LStripChar(once, '\n'), '\n');
    assert nl == once;
    StripIdempotent(txt);
    Strip(nl)
  }

  /** `text_in.split('\n')`. */
  function LinesIn(txt: string): (lines: seq<string>)
    ensures |lines| >= 1 && Join(lines, "\n") == Strip(txt)
    ensures forall k :: 0 <= k < |lines| ==> '\n' !in lines[k]
  {
    var lines := Split(TextIn(txt), "\n");
    JoinSplit(TextIn(txt), "\n");
    SplitPiecesLackSeparator(TextIn(txt), "\n");
    assert forall k :: 0 <= k < |lines| ==> '\n' !in lines[k] by {
      forall k | 0 <= k < |lines| ensures '\n' !in lines[k] {
        CharContained(lines[k], '\n');
      }
    }
    lines
  }

  /** `lines_out`: one processed line per input line, truncated only when
      the limit is positive. */
  function LinesOut(lines: seq<string>, process: string -> string, limit: nat): (out: seq<string>)
    ensures |out| == |lines|
    ensures forall k :: 0 <= k < |lines| ==>
              out[k] == if limit > 0 then Truncate(process(lines[k]), limit) else process(lines[k])
  {
    seq(|lines|, k requires 0 <= k < |lines| =>
      if limit > 0 then Truncate(process(lines[k]), limit) else process(lines[k]))
  }

  /** `reformat_links`: `ValueError` on a negative limit, otherwise the
      output lines joined by newlines. */
  function ReformatLinks(lines: seq<string>, process: string -> string, limit: int): (r: Result<string>)
    ensures limit < 0 <==> r == Fail(NegativeLineLimit)
    ensures limit >= 0 ==> r == Ok(Join(LinesOut(lines, process, limit), "\n"))
  {
    if limit < 0 then Fail(NegativeLineLimit)
    else Ok(Join(LinesOut(lines, process, limit), "\n"))
  }

  /** When no output line holds a newline, the text splits back into
      exactly the output lines, one per input line. */
  lemma ReformatSplitsBack(lines: seq<string>, process: string -> string, limit: nat)
    requires |lines| >= 1
    requires forall k :: 0 <= k < |lines| ==> '\n' !in LinesOut(lines, process, limit)[k]
    ensures Split(ReformatLinks(lines, process, limit).value, "\n") == LinesOut(lines, process, limit)
  {
    var out := LinesOut(lines, process, limit);
    forall k | 0 <= k < |out| ensures !Contains(out[k], "\n") {
      ContainsChar(out[k], '\n');
    }
    SplitJoin(out, "\n");
  }
}
