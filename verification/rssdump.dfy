/** The pure parts of `zktools/rssdump.py`: the file-name sanitiser
    `FeedParser._autoname`, the cover-image extension of an episode, and
    the year, key and PDF address of an IACR feed entry. */
module RssDump {
  import opened Results
  import opened PyStr

  // ---------------------------------------------------------------------
  // _autoname
  // ---------------------------------------------------------------------

  /** `re.sub('https?://', '', s)`: every scheme is dropped, scanning left
      to right and resuming after each one removed. */
  function DropSchemes(s: string): (r: string)
    ensures |r| <= |s|
    ensures forall c :: c in r ==> c in s
    decreases |s|
  {
    if s == [] then []
    else if StartsWith(s, "https://") then DropSchemes(s[8..])
    else if StartsWith(s, "http://") then DropSchemes(s[7..])
    else [s[0]] + DropSchemes(s[1..])
  }

  /** The class `[a-zA-Z0-9_ ./]`. */
  predicate IsKept(c: char) {
    IsAlnum(c) || c == '_' || c == ' ' || c == '.' || c == '/'
  }

  predicate IsWordOrBlank(c: char) { IsWord(c) || c == ' ' }

  /** The class `[-\s_]`. */
  predicate IsSeparator(c: char) { c == '-' || IsSpace(c) || c == '_' }

  /** `re.sub(r'[./]', '_', s)`. */
  function Underscored(s: string): (r: string)
    ensures |r| == |s|
    ensures forall i :: 0 <= i < |s| ==> r[i] == (if s[i] == '.' || s[i] == '/' then '_' else s[i])
  {
    seq(|s|, i requires 0 <= i < |s| => if s[i] == '.' || s[i] == '/' then '_' else s[i])
  }

  /** No two underscores in a row. */
  ghost predicate NoDoubleUnderscore(s: string) {
    forall i, j :: 0 <= i < j < |s| && j == i + 1 ==> !(s[i] == '_' && s[j] == '_')
  }

  /** What `str.title` leaves: a letter is upper-case exactly when it is
      first or follows a character that is not a letter. */
  predicate TitleCased(s: string) {
    forall i :: 0 <= i < |s| && IsAlpha(s[i]) ==> (IsUpper(s[i]) <==> (i == 0 || !IsAlpha(s[i - 1])))
  }

  /** The first four stages: trimmed, schemes dropped when asked, only
      `[a-zA-Z0-9_ ./]` kept, and `.` and `/` turned into `_`. */
  function Cleaned(name: string, xHttp: bool): (r: string)
    ensures forall i :: 0 <= i < |r| ==> IsWordOrBlank(r[i])
  {
    var trimmed := Strip(name);
    var bare := if xHttp then DropSchemes(trimmed) else trimmed;
    Underscored(Filter(bare, IsKept))
  }

  /** The name before the prefix and extension are added: after the
      cleaning, `Episode` shortened to `Ep`, every run of separators made
      one `_`, and the result title-cased. */
  function BaseName(name: string, xHttp: bool): (r: string)
    ensures forall i :: 0 <= i < |r| ==> IsWord(r[i])
    ensures NoDoubleUnderscore(r)
    ensures TitleCased(r)
  {
    var flat := Cleaned(name, xHttp);
    var short := Replace(flat, "Episode", "Ep");
    SubKeeps(flat, "Episode", "Ep", All, IsWordOrBlank);
    var joined := ReplaceRuns(short, IsSeparator, '_');
    JoinedShape(short);
    TitleShape(joined);
    Title(joined)
  }

  /** Once runs of separators are one `_`, only word characters are left
      and no two `_` touch. */
  lemma JoinedShape(s: string)
    requires forall i :: 0 <= i < |s| ==> IsWordOrBlank(s[i])
    ensures var j := ReplaceRuns(s, IsSeparator, '_');
            (forall i :: 0 <= i < |j| ==> IsWord(j[i])) && NoDoubleUnderscore(j)
  {
    var j := ReplaceRuns(s, IsSeparator, '_');
    ReplaceRunsKeeps(s, IsSeparator, '_', IsWordOrBlank);
    forall i | 0 <= i < |j| ensures IsWord(j[i]) {
      assert IsWordOrBlank(j[i]);
      assert IsSeparator(j[i]) ==> j[i] == '_';
    }
  }

  /** Title-casing keeps every character a word character and every `_`
      where it is. */
  lemma TitleShape(s: string)
    requires (forall i :: 0 <= i < |s| ==> IsWord(s[i])) && NoDoubleUnderscore(s)
    ensures var r := Title(s);
            (forall i :: 0 <= i < |r| ==> IsWord(r[i])) && NoDoubleUnderscore(r) && TitleCased(r)
  {
    var r := Title(s);
    assert forall i :: 0 <= i < |r| ==> (r[i] == '_' <==> s[i] == '_');
  }

  /** `f"{prefix}_{name}"` when there is a prefix, then `f"{name}.{ext}"`
      when there is an extension. An absent prefix or extension is the
      empty string: both `None` and `''` are false. */
  function Framed(base: string, prefix: string, ext: string): (r: string)
    ensures prefix != "" ==> StartsWith(r, prefix + "_")
    ensures ext != "" ==> EndsWith(r, "." + ext)
    ensures prefix == "" && ext == "" ==> r == base
    ensures OccursAt(r, base, if prefix != "" then |prefix| + 1 else 0)
    ensures |r| == (if prefix != "" then |prefix| + 1 else 0) + |base| + (if ext != "" then |ext| + 1 else 0)
  {
    var named := if prefix != "" then prefix + "_" + base else base;
    var r := if ext != "" then named + "." + ext else named;
    var at := if prefix != "" then |prefix| + 1 else 0;
    assert r[at..at + |base|] == base;
    assert prefix != "" ==> r[..|prefix + "_"|] == prefix + "_";
    assert ext != "" ==> r[|r| - |ext| - 1..] == "." + ext;
    r
  }

  /** `_autoname(name, prefix, ext, x_http)`: the cleaned name, made of
      word characters, with single underscores and title-cased, framed by
      the prefix and the extension. */
  function Autoname(name: string, prefix: string, ext: string, xHttp: bool): (r: string)
    ensures prefix != "" ==> StartsWith(r, prefix + "_")
    ensures ext != "" ==> EndsWith(r, "." + ext)
    ensures OccursAt(r, BaseName(name, xHttp), if prefix != "" then |prefix| + 1 else 0)
    ensures prefix == "" && ext == "" ==>
              (forall i :: 0 <= i < |r| ==> IsWord(r[i])) && NoDoubleUnderscore(r) && TitleCased(r)
  {
    Framed(BaseName(name, xHttp), prefix, ext)
  }

  /** Stripping text behind a prefix that does not end in whitespace
      strips only the text. */
  lemma {:induction false} RStripBehind(a: string, s: string)
    requires a != [] && !IsSpace(a[|a| - 1])
    ensures RStrip(a + s) == a + RStrip(s)
    decreases |s|
  {
    if s != [] && IsSpace(s[|s| - 1]) {
      assert (a + s)[..|a + s| - 1] == a + s[..|s| - 1];
      RStripBehind(a, s[..|s| - 1]);
    } else {
      assert s == [] ==> a + s == a;
    }
  }

  /** With `x_http`, a leading `https://` makes no difference to the name
      of a text that does not start with whitespace. */
  lemma SchemeIgnored(s: string, prefix: string, ext: string)
    requires s == [] || !IsSpace(s[0])
    ensures Autoname("https://" + s, prefix, ext, true) == Autoname(s, prefix, ext, true)
  {
    var h := "https://";
    assert LStrip(h + s) == h + s;
    RStripBehind(h, s);
    assert LStrip(s) == s;
    assert Strip(h + s) == h + Strip(s);
    assert (h + Strip(s))[8..] == Strip(s);
  }

  /** A text without `:` holds no scheme. */
  lemma {:induction false} NoColonNoScheme(s: string)
    requires ':' !in s
    ensures DropSchemes(s) == s
    decreases |s|
  {
    if s != [] {
      assert !StartsWith(s, "https://") by { assert |s| >= 8 ==> s[5] == s[..8][5]; }
      assert !StartsWith(s, "http://") by { assert |s| >= 7 ==> s[4] == s[..7][4]; }
      NoColonNoScheme(s[1..]);
    }
  }

  /** Without `.` or `/` there is nothing to turn into `_`. */
  lemma UnderscoredKeeps(s: string)
    requires '.' !in s && '/' !in s
    ensures Underscored(s) == s
  {
  }

  predicate AllLower(w: string) {
    forall i :: 0 <= i < |w| ==> IsLower(w[i])
  }

  /** Cleaning leaves a word of lower-case letters alone. */
  lemma CleanedPlain(w: string)
    requires AllLower(w)
    ensures Cleaned(w, true) == w
  {
    LowerChars(w);
    StripKeepsNoSpace(w);
    NoColonNoScheme(w);
    FilterAll(w, IsKept);
    UnderscoredKeeps(w);
  }

  lemma LowerChars(w: string)
    requires AllLower(w)
    ensures ':' !in w && '.' !in w && '/' !in w
    ensures NoSpace(w) && forall i :: 0 <= i < |w| ==> IsKept(w[i]) && !IsSeparator(w[i])
  {
  }

  /** A word of lower-case letters holds no `Episode`. */
  lemma PlainNoEpisode(w: string)
    requires AllLower(w)
    ensures !Contains(w, "Episode")
  {
    forall j: nat ensures !OccursAt(w, "Episode", j) {
      if j + 7 <= |w| {
        assert w[j..j + 7][0] == w[j];
      }
    }
  }

  /** Only the title-casing changes a word of lower-case letters. */
  lemma PlainBase(w: string)
    requires AllLower(w)
    ensures BaseName(w, true) == Title(w)
  {
    CleanedPlain(w);
    PlainNoEpisode(w);
    SubNoMatch(w, "Episode", "Ep", All);
    LowerChars(w);
    ReplaceRunsOutside(w, [], IsSeparator, '_');
    assert w + [] == w;
    assert ReplaceRuns(Replace(Cleaned(w, true), "Episode", "Ep"), IsSeparator, '_') == w;
  }

  /** A word of lower-case letters comes out with its first letter
      upper-cased and nothing else changed. */
  lemma PlainWordKept(w: string)
    requires w != [] && AllLower(w)
    ensures Autoname(w, "", "", true) == [ToUpper(w[0])] + w[1..]
  {
    PlainBase(w);
    TitleOfLower(w);
  }

  /** Title-casing a word of lower-case letters upper-cases its first
      letter only. */
  lemma TitleOfLower(w: string)
    requires w != [] && AllLower(w)
    ensures Title(w) == [ToUpper(w[0])] + w[1..]
  {
    var r := Title(w);
    assert r[0] == ToUpper(w[0]);
    forall i | 0 < i < |w| ensures r[i] == w[i] {
      assert IsAlpha(w[i - 1]) && IsLower(w[i]);
    }
  }

  // ---------------------------------------------------------------------
  // Cover image extension
  // ---------------------------------------------------------------------

  /** `href.split('?')[0]`: the address before its query. */
  function QueryStripped(href: string): (u: string)
    ensures '?' !in u && StartsWith(href, u)
    ensures u == href || href[|u|] == '?'
  {
    SplitPiecesLackSeparator(href, "?");
    CharContained(Split(href, "?")[0], '?');
    match Find(href, "?")
    case None => href
    case Some(i) =>
      assert href[i..i + 1] == "?";
      href[..i]
  }

  /** `img_url.split('.')[-1] or 'JPG'`: the text after the last `.` of
      the address (all of it when there is none), or `JPG` when that text
      is empty. */
  function ImageExt(href: string): (ext: string)
    ensures var u := QueryStripped(href);
            u == [] || u[|u| - 1] == '.' ==> ext == "JPG"
    ensures var u := QueryStripped(href);
            u != [] && u[|u| - 1] != '.' ==>
              ext != [] && '.' !in ext && (ext == u || EndsWith(u, "." + ext))
  {
    var u := QueryStripped(href);
    var tail := Last(Split(u, "."));
    SplitLastBehind(u, ".");
    SplitPiecesLackSeparator(u, ".");
    CharContained(tail, '.');
    DotEndsEmpty(u);
    if tail == "" then "JPG" else tail
  }

  /** After a final `.`, the last piece is empty. */
  lemma DotEndsEmpty(u: string)
    ensures u != [] && u[|u| - 1] == '.' ==> Last(Split(u, ".")) == ""
  {
    if u != [] && u[|u| - 1] == '.' {
      assert u == u[..|u| - 1] + "." + "";
      SplitLastAfter(u[..|u| - 1], "", ".");
    }
  }

  // ---------------------------------------------------------------------
  // IACR entries
  // ---------------------------------------------------------------------

  datatype IacrEntry = IacrEntry(year: string, key: string, pdf: string)

  /** `url.split('/')[-2:]` unpacked into year and key, and the PDF at
      `url + '.pdf'`. A link without `/` gives one piece, which the
      two-name unpacking rejects. */
  function IacrEntryOf(url: string): (r: Result<IacrEntry>)
    ensures r.Fail? <==> '/' !in url
    ensures r.Fail? ==> r.error == TooFewSegments(url)
    ensures r.Ok? ==> '/' !in r.value.year && '/' !in r.value.key
    ensures r.Ok? ==> EndsWith(url, r.value.year + "/" + r.value.key)
    ensures r.Ok? ==> r.value.pdf == url + ".pdf"
  {
    var parts := Split(url, "/");
    var n := |parts|;
    CharContained(url, '/');
    ContainsChar(url, '/');
    if n < 2 then Fail(TooFewSegments(url))
    else
      SplitPiecesLackSeparator(url, "/");
      CharContained(parts[n - 2], '/');
      CharContained(parts[n - 1], '/');
      LastTwoPieces(url);
      Ok(IacrEntry(parts[n - 2], parts[n - 1], url + ".pdf"))
  }

  /** The last two pieces of a split at `/` end the string, joined by a
      `/`. */
  lemma LastTwoPieces(url: string)
    requires |Split(url, "/")| >= 2
    ensures var parts := Split(url, "/");
            EndsWith(url, parts[|parts| - 2] + "/" + parts[|parts| - 1])
  {
    var parts := Split(url, "/");
    var n := |parts|;
    JoinSplit(url, "/");
    JoinSnoc(parts[..n - 1], parts[n - 1], "/");
    assert parts[..n - 1] + [parts[n - 1]] == parts;
    var front := parts[..n - 1];
    if n - 1 >= 2 {
      JoinSnoc(front[..n - 2], front[n - 2], "/");
      assert front[..n - 2] + [front[n - 2]] == front;
    }
    var j := Join(front, "/");
    assert EndsWith(j, parts[n - 2]);
    var t := parts[n - 2] + "/" + parts[n - 1];
    assert url == j + "/" + parts[n - 1];
    assert url[|url| - |t|..] == t;
  }

  /** A link `…/year/key` yields that year and key. */
  lemma {:induction false} IacrLinkRead(a: string, year: string, key: string)
    requires '/' !in year && '/' !in key
    ensures IacrEntryOf(a + "/" + year + "/" + key)
            == Ok(IacrEntry(year, key, a + "/" + year + "/" + key + ".pdf"))
  {
    var url := a + "/" + year + "/" + key;
    ContainsChar(year, '/');
    ContainsChar(key, '/');
    SplitAppend(a + "/" + year, key, "/");
    SplitAppend(a, year, "/");
    assert Split(year, "/") == [year] && Split(key, "/") == [key];
    assert url[|a|] == '/';
  }
}
