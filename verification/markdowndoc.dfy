/** `MarkdownDoc.as_simple` of `zktools/txtdoc.py`: every Markdown link
    `[name](url)` of a text is rewritten, repeatedly and everywhere it
    occurs, until none is left. A Twitter link becomes `@handle` while the
    text's first line still holds a link; any other link becomes
    `name - url`. */
module MarkdownDoc {
  import opened Results
  import opened PyStr
  import opened Pattern
  import opened LineFormat

  predicate IsCloseParen(c: char) { c == ')' }

  /** A link `[name](url)`: `[` at `open`, `]` at `close`, `)` at `end`. */
  datatype Link = Link(open: nat, close: nat, end: nat)

  /** The language of `\[([^\]]+)\]\(([^\)]+)\)` at one position, stated
      directly: a non-empty name without `]`, a non-empty URL without `)`;
      newlines are allowed in both. */
  ghost predicate IsLinkAt(s: string, l: Link) {
    && l.open + 1 < l.close && l.close + 2 < l.end < |s|
    && s[l.open] == '[' && s[l.close] == ']' && s[l.close + 1] == '(' && s[l.end] == ')'
    && (forall j :: l.open < j < l.close ==> s[j] != ']')
    && (forall j :: l.close + 2 <= j < l.end ==> s[j] != ')')
  }

  /** The pattern tried at `i`. Each character class stops exactly at the
      delimiter that must follow it, so no backtracking is possible. */
  function LinkAt(s: string, i: nat): (m: Option<Link>)
    ensures m.Some? ==> m.value.open == i && IsLinkAt(s, m.value)
    ensures forall l: Link :: l.open == i && IsLinkAt(s, l) ==> m == Some(l)
  {
    if i >= |s| || s[i] != '[' then None
    else
      var close := RunEnd(s, i + 1, IsCloseBracket);
      if close == i + 1 || close + 1 >= |s| || s[close + 1] != '(' then None
      else
        var end := RunEnd(s, close + 2, IsCloseParen);
        if end == close + 2 || end == |s| then None
        else
          assert forall l: Link :: l.open == i && IsLinkAt(s, l) ==> l == Link(i, close, end) by {
            forall l: Link | l.open == i && IsLinkAt(s, l) ensures l == Link(i, close, end) {
              RunEndAt(s, i + 1, IsCloseBracket, l.close);
              RunEndAt(s, l.close + 2, IsCloseParen, l.end);
            }
          }
          Some(Link(i, close, end))
  }

  /** `md_pat.search` from `i`: the leftmost link. */
  function FirstLink(s: string, i: nat): (m: Option<Link>)
    ensures m.Some? ==> i <= m.value.open && LinkAt(s, m.value.open) == m
    ensures m.Some? ==> forall j :: i <= j < m.value.open ==> LinkAt(s, j).None?
    ensures m.None? ==> forall j :: i <= j < |s| ==> LinkAt(s, j).None?
    decreases |s| - i
  {
    if i >= |s| then None
    else match LinkAt(s, i)
      case Some(l) => Some(l)
      case None => FirstLink(s, i + 1)
  }

  ghost predicate HasLink(s: string) {
    exists l: Link :: IsLinkAt(s, l)
  }

  /** The search fails exactly when the text holds no link. */
  lemma FirstLinkIff(s: string)
    ensures FirstLink(s, 0).Some? <==> HasLink(s)
  {
    if FirstLink(s, 0).Some? {
      assert IsLinkAt(s, FirstLink(s, 0).value);
    }
    if HasLink(s) {
      var l: Link :| IsLinkAt(s, l);
      assert LinkAt(s, l.open) == Some(l);
    }
  }

  /** `len(md_pat.findall(s))` from `i`: each match resumes the scan
      after its `)`. */
  function CountLinks(s: string, i: nat): (n: nat)
    ensures n > 0 ==> FirstLink(s, i).Some?
    ensures FirstLink(s, i).Some? ==> n > 0
    decreases |s| - i
  {
    if i >= |s| then 0
    else match LinkAt(s, i)
      case Some(l) => 1 + CountLinks(s, l.end + 1)
      case None => CountLinks(s, i + 1)
  }

  /** `text.split('\n')[0]`. */
  function FirstLine(s: string): string {
    Split(s, "\n")[0]
  }

  /** Whether a `twitter.com/` host followed by a non-empty handle is read
      at `q`. */
  predicate HostAt(url: string, q: nat) {
    q <= |url| && MatchAt(url, Dotted("twitter.com/"), q) && NameEnd(url, q + 12).Some?
  }

  /** The leftmost host from `q` with a non-empty handle. The optional
      scheme of `((https?://)?twitter.com/([^/ ]+))` never moves the host a
      match reads: a scheme starting before a host the scan would reach
      first would have to overlap it, and no suffix of `https://` starts
      `twitter.com/`. */
  function HostFrom(url: string, q: nat): (p: Option<nat>)
    requires q <= |url|
    ensures p.Some? ==> q <= p.value && HostAt(url, p.value)
    ensures p.Some? ==> forall j :: q <= j < p.value ==> !HostAt(url, j)
    ensures p.None? ==> forall j :: q <= j <= |url| ==> !HostAt(url, j)
    decreases |url| - q
  {
    if HostAt(url, q) then Some(q)
    else if q == |url| then None
    else HostFrom(url, q + 1)
  }

  /** `re.search(r'((https?://)?twitter.com/([^/ ]+))', url).group(3)`. */
  function TwitterHandle(url: string): (h: Option<string>)
    ensures h.Some? ==> h.value != [] && '/' !in h.value && ' ' !in h.value
    ensures h.Some? ==> CountChar(h.value, ']') <= CountChar(url, ']')
    ensures h.None? <==> forall j :: 0 <= j <= |url| ==> !HostAt(url, j)
    ensures h.Some? ==>
              var p := HostFrom(url, 0).value;
              && OccursAt(url, h.value, p + 12)
              && (p + 12 + |h.value| == |url| || IsSlashOrSpace(url[p + 12 + |h.value|]))
  {
    match HostFrom(url, 0)
    case None => None
    case Some(p) =>
      var e := NameEnd(url, p + 12).value;
      HandleRun(url, p + 12, e);
      Some(url[p + 12..e])
  }

  /** The run of `[^/ ]` a handle is read from. */
  lemma HandleRun(url: string, i: nat, e: nat)
    requires i < e <= |url| && e == RunEnd(url, i, IsSlashOrSpace)
    ensures '/' !in url[i..e] && ' ' !in url[i..e]
    ensures CountChar(url[i..e], ']') <= CountChar(url, ']')
    ensures OccursAt(url, url[i..e], i)
    ensures e == |url| || IsSlashOrSpace(url[e])
  {
    assert forall j :: i <= j < e ==> !IsSlashOrSpace(url[j]);
    CountCharSlice(url, i, e, ']');
  }

  /** The link's name and URL. */
  function Name(s: string, l: Link): string
    requires l.open < l.close <= |s|
  {
    s[l.open + 1..l.close]
  }

  function Url(s: string, l: Link): string
    requires l.close + 2 <= l.end <= |s|
  {
    s[l.close + 2..l.end]
  }

  /** `_replace_inline` for the link `l` of `text` followed by the `or`
      of `as_simple`: `@handle` when the link is a Twitter URL and the
      text's first line holds a link (the `k > 1` test), else `name - url`. */
  function Replacement(text: string, l: Link): (rep: string)
    requires IsLinkAt(text, l)
    ensures CountLinks(FirstLine(text), 0) > 0 && TwitterHandle(Url(text, l)).Some? ==>
              rep == "@" + TwitterHandle(Url(text, l)).value
    ensures CountLinks(FirstLine(text), 0) == 0 || TwitterHandle(Url(text, l)).None? ==>
              rep == Name(text, l) + " - " + Url(text, l)
  {
    var full := text[l.open..l.end + 1];
    var inner := Link(0, l.close - l.open, l.end - l.open);
    SameLinkInside(text, l);
    var k := CountLinks(FirstLine(text), 0) + 1;
    var found := FirstLink(full, 0);
    var handle := if found.Some? && k > 1 then TwitterHandle(Url(full, found.value)) else None;
    var inline := if handle.Some? then "@" + handle.value else "";
    if inline != "" then inline else Name(text, l) + " - " + Url(text, l)
  }

  /** The matched text, searched again on its own, is the same link. */
  lemma SameLinkInside(text: string, l: Link)
    requires IsLinkAt(text, l)
    ensures var full := text[l.open..l.end + 1];
            var inner := Link(0, l.close - l.open, l.end - l.open);
            && IsLinkAt(full, inner)
            && FirstLink(full, 0) == Some(inner)
            && Url(full, inner) == Url(text, l)
  {
    var full := text[l.open..l.end + 1];
    var inner := Link(0, l.close - l.open, l.end - l.open);
    forall j | 0 <= j < |full| ensures full[j] == text[l.open + j] { }
    assert IsLinkAt(full, inner);
    assert LinkAt(full, 0) == Some(inner);
    assert Url(full, inner) == Url(text, l);
  }

  /** The matched text is `[`, the name, `](`, the URL and `)`. */
  lemma LinkText(text: string, l: Link)
    requires IsLinkAt(text, l)
    ensures text[l.open..l.end + 1] == "[" + Name(text, l) + "](" + Url(text, l) + ")"
  {
    var full := text[l.open..l.end + 1];
    var name := Name(text, l);
    var url := Url(text, l);
    var t := "[" + name + "](" + url + ")";
    var c := l.close - l.open;
    assert |t| == |full|;
    forall j | 0 <= j < |full| ensures full[j] == t[j] {
      if 0 < j < c {
        assert t[j] == name[j - 1];
      } else if c + 1 < j < |full| - 1 {
        assert t[j] == url[j - c - 2];
      }
    }
  }

  /** The replacement holds fewer `]` than the link it replaces: the
      link's own `]` is gone, and what is left comes from its URL. */
  lemma ReplacementDropsBracket(text: string, l: Link)
    requires IsLinkAt(text, l)
    ensures CountChar(Replacement(text, l), ']') < CountChar(text[l.open..l.end + 1], ']')
  {
    var name := Name(text, l);
    var url := Url(text, l);
    LinkText(text, l);
    NameLacksBracket(text, l);
    LinkBrackets(name, url);
    ReplacementBrackets(text, l);
  }

  lemma NameLacksBracket(text: string, l: Link)
    requires IsLinkAt(text, l)
    ensures ']' !in Name(text, l)
  {
    var name := Name(text, l);
    forall j | 0 <= j < |name| ensures name[j] != ']' {
      assert name[j] == text[l.open + 1 + j];
    }
  }

  /** A written link holds its own `]` and those of its URL. */
  lemma LinkBrackets(name: string, url: string)
    requires ']' !in name
    ensures CountChar("[" + name + "](" + url + ")", ']') == 1 + CountChar(url, ']')
  {
    CountCharAbsent(name, ']');
    assert "[" + name + "](" + url + ")" == ("[" + name + "](") + (url + ")");
    CountCharAppend("[" + name + "](", url + ")", ']');
    CountCharAppend("[" + name, "](", ']');
    CountCharAppend("[", name, ']');
    CountCharAppend(url, ")", ']');
  }

  /** The replacement holds no `]` but those of the URL. */
  lemma ReplacementBrackets(text: string, l: Link)
    requires IsLinkAt(text, l)
    ensures CountChar(Replacement(text, l), ']') <= CountChar(Url(text, l), ']')
  {
    var name := Name(text, l);
    var url := Url(text, l);
    NameLacksBracket(text, l);
    CountCharAbsent(name, ']');
    if CountLinks(FirstLine(text), 0) > 0 && TwitterHandle(url).Some? {
      CountCharAppend("@", TwitterHandle(url).value, ']');
    } else {
      CountCharAppend(name + " - ", url, ']');
      CountCharAppend(name, " - ", ']');
    }
  }

  /** One round of the loop removes at least one `]` from the text. */
  lemma RoundDropsBracket(text: string, l: Link)
    requires FirstLink(text, 0) == Some(l)
    ensures CountChar(Replace(text, text[l.open..l.end + 1], Replacement(text, l)), ']')
            < CountChar(text, ']')
  {
    assert IsLinkAt(text, l);
    var full := text[l.open..l.end + 1];
    ReplacementDropsBracket(text, l);
    assert Contains(text, full) by {
      assert OccursAt(text, full, l.open);
    }
    ReplaceCountChar(text, full, Replacement(text, l), ']');
  }

  /** `MarkdownDoc(text_in).as_simple()`: rewrite the leftmost link, at
      every place its text occurs, until no link is left. Each round
      removes at least one `]`, so the loop ends. */
  method AsSimple(textIn: string) returns (out: string)
    ensures !HasLink(out)
    ensures CountChar(out, ']') <= CountChar(Strip(textIn), ']')
    ensures !HasLink(Strip(textIn)) ==> out == Strip(textIn)
  {
    out := Strip(textIn);
    var m := FirstLink(out, 0);
    FirstLinkIff(out);
    while m.Some?
      invariant m == FirstLink(out, 0)
      invariant CountChar(out, ']') <= CountChar(Strip(textIn), ']')
      invariant !HasLink(Strip(textIn)) ==> out == Strip(textIn) && m.None?
      decreases CountChar(out, ']')
    {
      var l := m.value;
      RoundDropsBracket(out, l);
      out := Replace(out, out[l.open..l.end + 1], Replacement(out, l));
      m := FirstLink(out, 0);
    }
    FirstLinkIff(out);
  }
}
