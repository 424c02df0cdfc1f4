/** The older root `txtdoc.py`: the same line handlers as the current
    reformatter but four of them (no IACR), a fallback whose URL scheme is
    optional, and Markdown lines written `[url](txt)` without a newline.
    The lemmas at the end set the two versions side by side. */
module LegacyTextDoc {
  import opened Results
  import opened PyStr
  import opened LineFormat
  import TextDoc

  /** The handler order: github, twitter, zkfm, youtube. */
  function Handlers(sc: Scrapers): (hs: seq<string -> string>)
    ensures |hs| == 4
    ensures hs[0] == Github && hs[1] == Twitter
    ensures forall s :: hs[2](s) == Zkfm(sc, s) && hs[3](s) == Youtube(sc, s)
  {
    [Github, Twitter, s => Zkfm(sc, s), s => Youtube(sc, s)]
  }

  /** The plain reformatting of a line: trimmed, flattened if it holds a
      Markdown link, then the first handler that changes it, or the
      fallback with the scheme optional. */
  function PlainLine(sc: Scrapers, line: string): (r: string)
    ensures var s := ForceSimple(Strip(line));
            (forall j :: 0 <= j < 4 ==> Handlers(sc)[j](s) == s) ==> r == Default(sc, s, true)
    ensures var s := ForceSimple(Strip(line));
            forall k :: (0 <= k < 4 && Handlers(sc)[k](s) != s
                         && (forall j :: 0 <= j < k ==> Handlers(sc)[j](s) == s)) ==> r == Handlers(sc)[k](s)
  {
    Chain(Handlers(sc), s => Default(sc, s, true), ForceSimple(Strip(line)))
  }

  /** `f"[{url}]({txt})"`: the URL goes in the brackets and the text in
      the parentheses, and no newline follows. */
  function MdLine(out: string): (r: string)
    ensures r == "[" + MdFields(out).url + "](" + MdFields(out).txt + ")"
    ensures StartsWith(r, "[") && EndsWith(r, ")")
  {
    var f := MdFields(out);
    var r := "[" + f.url + "](" + f.txt + ")";
    assert r[|r| - 1..] == ")" && r[..1] == "[";
    r
  }

  /** The older Markdown line, read by the same `_force_simple`, comes back
      as `txt | url`: the text and the URL trade places, where the current
      version gives back `url | txt`. */
  lemma MdLineSwapped(out: string)
    requires var f := MdFields(out); f.url != [] && ']' !in f.url && f.txt != [] && '\n' !in f.txt
    ensures ForceSimple(MdLine(out)) == MdFields(out).txt + " | " + MdFields(out).url
  {
    var f := MdFields(out);
    FlattenWrittenLink(f.url, f.txt);
  }

  /** `_process_line`. */
  function ProcessLine(sc: Scrapers, line: string, md: bool): (r: string)
    ensures !md ==> r == PlainLine(sc, line)
    ensures md ==> r == MdLine(PlainLine(sc, line))
  {
    if md then MdLine(PlainLine(sc, line)) else PlainLine(sc, line)
  }

  /** `TextDoc(txt).reformat_links(md, max_line_len)`. */
  function Reformat(sc: Scrapers, txt: string, md: bool, limit: int): (r: Result<string>)
    ensures limit < 0 <==> r.Fail?
    ensures r.Ok? ==> r.value == Join(LinesOut(LinesIn(txt), s => ProcessLine(sc, s, md), limit), "\n")
  {
    ReformatLinks(LinesIn(txt), s => ProcessLine(sc, s, md), limit)
  }

  // ---------------------------------------------------------------------
  // The two versions side by side
  // ---------------------------------------------------------------------

  /** The older handlers are the first four of the current ones. */
  lemma HandlersShared(sc: Scrapers)
    ensures forall j, s :: 0 <= j < 4 ==> Handlers(sc)[j](s) == TextDoc.Handlers(sc)[j](s)
  {
  }

  /** A line one of the four shared handlers changes reads the same in
      both versions. */
  lemma SharedHandlerAgrees(sc: Scrapers, line: string, k: nat)
    requires k < 4
    requires var s := ForceSimple(Strip(line));
             Handlers(sc)[k](s) != s && forall j :: 0 <= j < k ==> Handlers(sc)[j](s) == s
    ensures PlainLine(sc, line) == TextDoc.PlainLine(sc, line)
  {
    HandlersShared(sc);
    var s := ForceSimple(Strip(line));
    assert TextDoc.Handlers(sc)[k](s) != s;
  }

  /** With a scheme and a domain, the optional scheme changes nothing. */
  lemma FallbackAgrees(sc: Scrapers, s: string)
    requires SiteOf(s, false).Some?
    ensures Default(sc, s, true) == Default(sc, s, false)
  {
  }

  /** An IACR line only the current version reformats: the older one sends
      it to the fallback. */
  lemma IacrOnlyInCurrent(sc: Scrapers, line: string)
    requires var s := ForceSimple(Strip(line));
             (forall j :: 0 <= j < 4 ==> Handlers(sc)[j](s) == s) && TextDoc.Iacr(sc, s) != s
    ensures TextDoc.PlainLine(sc, line) == TextDoc.Iacr(sc, ForceSimple(Strip(line)))
    ensures PlainLine(sc, line) == Default(sc, ForceSimple(Strip(line)), true)
  {
    HandlersShared(sc);
  }

  /** The older version reads a line without scheme as a URL whose domain
      is the line's first `[^/ ]+` run, where the current one leaves the
      line alone. Without a path, the older one asks for the page title of
      that domain, which carries no scheme either. */
  lemma BareDomainRead(sc: Scrapers, s: string)
    requires s != [] && !IsSlashOrSpace(s[0])
    requires !StartsWith(s, "http://") && !StartsWith(s, "https://")
    ensures SiteOf(s, true) == Some(Site(0, RunEnd(s, 0, IsSlashOrSpace)))
    ensures Default(sc, s, false) == s
    ensures PathEnd(s, RunEnd(s, 0, IsSlashOrSpace)).None? ==>
              Default(sc, s, true)
              == s[..RunEnd(s, 0, IsSlashOrSpace)] + " | "
                 + ScrapeHtmlTitle(sc, s[..RunEnd(s, 0, IsSlashOrSpace)]) + " | "
                 + s[..RunEnd(s, 0, IsSlashOrSpace)]
    ensures HttpLen(s[..RunEnd(s, 0, IsSlashOrSpace)]) == 0
  {
    assert HttpLen(s) == 0;
    DefaultNeedsScheme(sc, s);
  }
}
