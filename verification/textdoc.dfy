/** `zktools/txtdoc.py`, the current plain-text link reformatter: five
    handlers (IACR included), the URL scheme required by the fallback,
    Markdown lines written `[txt](url)` with a newline, and link
    extraction. */
module TextDoc {
  import opened Results
  import opened PyStr
  import opened Pattern
  import opened LineFormat
  import LinkDoc

  // ---------------------------------------------------------------------
  // _iacr
  // ---------------------------------------------------------------------

  /** `^((https?://)?eprint.iacr.org/(.+))`: where the edition, a
      non-empty run of non-newlines after the host, ends. */
  function EditionEnd(s: string): (e: Option<nat>)
    ensures e.Some? ==> HttpLen(s) + 16 < e.value <= |s|
    ensures e.Some? ==> forall j :: HttpLen(s) + 16 <= j < e.value ==> s[j] != '\n'
    ensures e.None? <==>
              !MatchAt(s, Dotted("eprint.iacr.org/"), HttpLen(s))
              || HttpLen(s) + 16 == |s| || s[HttpLen(s) + 16] == '\n'
  {
    var at := HttpLen(s);
    if !MatchAt(s, Dotted("eprint.iacr.org/"), at) then None
    else
      var e := RunEnd(s, at + 16, IsNewline);
      if e == at + 16 then None else Some(e)
  }

  /** `scrape_iacr_param`: the `content` of the page's meta tags with
      that name, joined by `, `. */
  function IacrParam(sc: Scrapers, url: string, attr: string): string {
    Join(sc.metaContents(url, attr), ", ")
  }

  /** `_iacr`: the whole line, the paper's title and authors, and the
      edition. */
  function Iacr(sc: Scrapers, s: string): (r: string)
    ensures EditionEnd(s).None? ==> r == s
    ensures EditionEnd(s).Some? ==>
              StartsWith(r, s + " | ")
              && EndsWith(r, " | IACR - " + s[HttpLen(s) + 16..EditionEnd(s).value])
    ensures EditionEnd(s).Some? ==>
              r[|s| + 3..] == IacrParam(sc, s, "citation_title") + " by "
                              + IacrParam(sc, s, "citation_author")
                              + " | IACR - " + s[HttpLen(s) + 16..EditionEnd(s).value]
  {
    match EditionEnd(s)
    case None => s
    case Some(e) =>
      var ed := " | IACR - " + s[HttpLen(s) + 16..e];
      var paper := IacrParam(sc, s, "citation_title") + " by " + IacrParam(sc, s, "citation_author");
      var r := Labelled(s, paper + ed);
      assert r[|r| - |ed|..] == ed by {
        assert r[|s| + 3..] == paper + ed;
        assert r[|r| - |ed|..] == r[|s| + 3..][|paper|..];
      }
      r
  }

  // ---------------------------------------------------------------------
  // _process_line
  // ---------------------------------------------------------------------

  /** The handler order: github, twitter, zkfm, youtube, iacr. */
  function Handlers(sc: Scrapers): (hs: seq<string -> string>)
    ensures |hs| == 5
    ensures hs[0] == Github && hs[1] == Twitter
    ensures forall s :: hs[2](s) == Zkfm(sc, s) && hs[3](s) == Youtube(sc, s) && hs[4](s) == Iacr(sc, s)
  {
    [Github, Twitter, s => Zkfm(sc, s), s => Youtube(sc, s), s => Iacr(sc, s)]
  }

  /** The plain reformatting of a line: trimmed, flattened if it holds a
      Markdown link, then the first handler that changes it, or the
      fallback with the scheme required. */
  function PlainLine(sc: Scrapers, line: string): (r: string)
    ensures var s := ForceSimple(Strip(line));
            (forall j :: 0 <= j < 5 ==> Handlers(sc)[j](s) == s) ==> r == Default(sc, s, false)
    ensures var s := ForceSimple(Strip(line));
            forall k :: (0 <= k < 5 && Handlers(sc)[k](s) != s
                         && (forall j :: 0 <= j < k ==> Handlers(sc)[j](s) == s)) ==> r == Handlers(sc)[k](s)
  {
    Chain(Handlers(sc), s => Default(sc, s, false), ForceSimple(Strip(line)))
  }

  /** `f"[{txt}]({url})\n"` from the text after and before the first `|`. */
  function MdLine(out: string): (r: string)
    ensures r == "[" + MdFields(out).txt + "](" + MdFields(out).url + ")\n"
    ensures StartsWith(r, "[") && EndsWith(r, ")\n")
  {
    var f := MdFields(out);
    var r := "[" + f.txt + "](" + f.url + ")\n";
    assert r[|r| - 2..] == ")\n";
    r
  }

  /** The Markdown line, trimmed as `_process_line` trims its input, is
      flattened by `_force_simple` back into `url | txt`: the text goes
      back behind the `|` and the URL before it. */
  lemma MdLineReadBack(out: string)
    requires var f := MdFields(out); f.txt != [] && ']' !in f.txt && f.url != [] && '\n' !in f.url
    ensures ForceSimple(Strip(MdLine(out))) == MdFields(out).url + " | " + MdFields(out).txt
  {
    var f := MdFields(out);
    FlattenWrittenLine(f.txt, f.url);
  }

  /** A Markdown line the link engine writes for a titled link, read back
      by `_force_simple`, gives `url | title`, as long as what follows the
      link holds no `)` and no newline. */
  lemma EngineMarkdownFlattens(kind: LinkDoc.Kind, url: string, title: string, authors: string, pub: string)
    requires LinkDoc.TitleLinked(kind, url)
    requires title != [] && ']' !in title && url != [] && '\n' !in url
    requires var tail := LinkDoc.MarkdownTail(kind, authors, pub); ')' !in tail && '\n' !in tail
    ensures ForceSimple(LinkDoc.MarkdownLine(kind, url, title, authors, pub)) == url + " | " + title
  {
    FlattenLinkThen(title, url, LinkDoc.MarkdownTail(kind, authors, pub));
  }

  /** `_process_line`. */
  function ProcessLine(sc: Scrapers, line: string, md: bool): (r: string)
    ensures !md ==> r == PlainLine(sc, line)
    ensures md ==> r == MdLine(PlainLine(sc, line))
  {
    if md then MdLine(PlainLine(sc, line)) else PlainLine(sc, line)
  }

  /** A line the GitHub handler changes is never seen by a later handler
      or by the fallback. */
  lemma GithubLineWins(sc: Scrapers, line: string)
    requires Github(ForceSimple(Strip(line))) != ForceSimple(Strip(line))
    ensures PlainLine(sc, line) == Github(ForceSimple(Strip(line)))
  {
  }

  // ---------------------------------------------------------------------
  // reformat_links, get_links
  // ---------------------------------------------------------------------

  /** `TextDoc(txt).reformat_links(md, max_line_len)`. */
  function Reformat(sc: Scrapers, txt: string, md: bool, limit: int): (r: Result<string>)
    ensures limit < 0 <==> r.Fail?
    ensures r.Ok? ==> r.value == Join(LinesOut(LinesIn(txt), s => ProcessLine(sc, s, md), limit), "\n")
  {
    ReformatLinks(LinesIn(txt), s => ProcessLine(sc, s, md), limit)
  }

  /** The length of the case-insensitive `https?://` at `i`, 0 when none. */
  function CiSchemeAt(s: string, i: nat): (n: nat)
    requires i <= |s|
    ensures n == 0 || n == 7 || n == 8
    ensures n == 8 ==> CiStartsWith(s[i..], "https://")
    ensures n == 7 ==> CiStartsWith(s[i..], "http://")
    ensures n == 0 ==> !CiStartsWith(s[i..], "https://") && !CiStartsWith(s[i..], "http://")
  {
    if CiStartsWith(s[i..], "https://") then 8
    else if CiStartsWith(s[i..], "http://") then 7
    else 0
  }

  /** What `get_links` returns: a case-insensitive `http://` or `https://`
      followed by at least one character, none of them whitespace. */
  predicate IsLink(w: string) {
    NoSpace(w) && ((CiStartsWith(w, "https://") && |w| > 8) || (CiStartsWith(w, "http://") && |w| > 7))
  }

  /** `https?://[^\s]+` at `i`: where the match ends. When `https://` is
      read but no non-space follows, the retry with `http` fails on the
      `s`, so the scheme length decides. */
  function LinkEnd(s: string, i: nat): (e: Option<nat>)
    requires i <= |s|
    ensures e.Some? ==> i + CiSchemeAt(s, i) < e.value <= |s| && CiSchemeAt(s, i) > 0
    ensures e.Some? ==> e.value == RunEnd(s, i + CiSchemeAt(s, i), IsSpace)
    ensures e.None? <==>
              CiSchemeAt(s, i) == 0 || i + CiSchemeAt(s, i) == |s| || IsSpace(s[i + CiSchemeAt(s, i)])
  {
    var n := CiSchemeAt(s, i);
    if n == 0 then None
    else
      var e := RunEnd(s, i + n, IsSpace);
      if e > i + n then Some(e) else None
  }

  lemma LinkEndIsLink(s: string, i: nat)
    requires i <= |s| && LinkEnd(s, i).Some?
    ensures IsLink(s[i..LinkEnd(s, i).value])
  {
    var e := LinkEnd(s, i).value;
    var n := CiSchemeAt(s, i);
    var w := s[i..e];
    assert w[..n] == s[i..][..n];
    forall k | 0 <= k < |w| ensures !IsSpace(w[k]) {
      assert w[k] == s[i + k];
      if k >= n {
        assert i + n <= i + k < e;
      } else {
        assert w[k] == s[i..][..n][k];
        assert Lower(s[i..][..n])[k] == ToLower(w[k]);
      }
    }
  }

  /** `re.findall`, scanning from `i`: each match resumes the scan where
      it ends. */
  function FindLinks(s: string, i: nat): (links: seq<string>)
    requires i <= |s|
    ensures forall k :: 0 <= k < |links| ==> IsLink(links[k])
    ensures links == [] <==> forall j :: i <= j < |s| ==> LinkEnd(s, j).None?
    decreases |s| - i
  {
    if i == |s| then []
    else match LinkEnd(s, i)
      case Some(e) =>
        LinkEndIsLink(s, i);
        [s[i..e]] + FindLinks(s, e)
      case None => FindLinks(s, i + 1)
  }

  /** The scan reports the leftmost match first and resumes where it ends. */
  lemma {:induction false} FindLinksLeftmost(s: string, i: nat, j: nat)
    requires i <= j < |s| && LinkEnd(s, j).Some?
    requires forall k :: i <= k < j ==> LinkEnd(s, k).None?
    ensures FindLinks(s, i) == [s[j..LinkEnd(s, j).value]] + FindLinks(s, LinkEnd(s, j).value)
    decreases j - i
  {
    if i < j {
      FindLinksLeftmost(s, i + 1, j);
    }
  }

  /** A text that is one link, with nothing around it, gives that link. */
  lemma LinkAlone(w: string)
    requires IsLink(w)
    ensures GetLinks(w) == [w]
  {
    LinksOfWord(w);
    LinkSpansWord(w);
    FindLinksLeftmost(w, 0, 0);
    assert w[0..|w|] == w;
  }

  lemma LinksOfWord(w: string)
    requires NoSpace(w)
    ensures GetLinks(w) == FindLinks(w, 0)
  {
    StripKeepsNoSpace(w);
  }

  /** A link read from its start runs to its end. */
  lemma LinkSpansWord(w: string)
    requires IsLink(w)
    ensures LinkEnd(w, 0) == Some(|w|)
  {
    assert w[0..] == w;
    var n := CiSchemeAt(w, 0);
    if CiStartsWith(w, "http://") && |w| > 7 {
      assert Lower(w[..7])[4] == ToLower(w[4]) == ':';
      if |w| >= 8 {
        assert Lower(w[..8])[4] == ToLower(w[4]);
      }
    }
    assert 0 < n < |w|;
    RunEndAt(w, n, IsSpace, |w|);
  }

  /** `get_links()`. */
  function GetLinks(txt: string): (links: seq<string>)
    ensures forall k :: 0 <= k < |links| ==> IsLink(links[k])
  {
    FindLinks(TextIn(txt), 0)
  }

  /** `get_links(as_text=True)`. */
  function GetLinksText(txt: string): string {
    Join(GetLinks(txt), "\n")
  }

  /** The text form splits back into the links. */
  lemma LinksTextSplitsBack(txt: string)
    requires |GetLinks(txt)| >= 1
    ensures Split(GetLinksText(txt), "\n") == GetLinks(txt)
  {
    var links := GetLinks(txt);
    forall k | 0 <= k < |links| ensures !Contains(links[k], "\n") {
      ContainsChar(links[k], '\n');
      assert NoSpace(links[k]);
    }
    SplitJoin(links, "\n");
  }
}
