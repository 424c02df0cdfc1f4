/** A reading list of links (`Links`): the URLs given as one text or as a
    list, optionally sorted with exact duplicates removed, then each
    shortened link expanded, dispatched to its variant and parsed, the
    records kept in a map keyed by their ids. */
module LinkBatch {
  import opened Results
  import opened PyStr
  import opened StringOrder
  import opened UrlGrammar
  import opened Pattern
  import opened LinkDoc

  // ---------------------------------------------------------------------
  // Links.__init__
  // ---------------------------------------------------------------------

  /** What `Links(urls)` is given: one text holding a URL per line, or a
      list of URLs. */
  datatype Source = Text(text: string) | Urls(urls: seq<string>)

  predicate IsLineBreak(c: char) {
    c == '\n' || c == '\r'
  }

  /** `[x.strip() for x in xs]`. */
  function StripAll(xs: seq<string>): (r: seq<string>)
    ensures |r| == |xs| && forall k :: 0 <= k < |r| ==> r[k] == Strip(xs[k])
  {
    seq(|xs|, k requires 0 <= k < |xs| => Strip(xs[k]))
  }

  /** The text form: stripped, every run of `\n` and `\r` made one `\n`,
      split there, each line stripped. */
  function SplitLines(text: string): (lines: seq<string>)
    ensures |lines| >= 1
    ensures forall k :: 0 <= k < |lines| ==> Strip(lines[k]) == lines[k]
    ensures forall k :: 0 <= k < |lines| ==> '\n' !in lines[k] && '\r' !in lines[k]
  {
    var t := ReplaceRuns(Strip(text), IsLineBreak, '\n');
    LinesHaveNoBreak(t, StripAll(Split(t, "\n")));
    StripAll(Split(t, "\n"))
  }

  lemma LinesHaveNoBreak(t: string, lines: seq<string>)
    requires forall i :: 0 <= i < |t| && IsLineBreak(t[i]) ==> t[i] == '\n'
    requires lines == StripAll(Split(t, "\n"))
    ensures forall k :: 0 <= k < |lines| ==> Strip(lines[k]) == lines[k]
    ensures forall k :: 0 <= k < |lines| ==> '\n' !in lines[k] && '\r' !in lines[k]
  {
    forall k | 0 <= k < |lines|
      ensures Strip(lines[k]) == lines[k] && '\n' !in lines[k] && '\r' !in lines[k]
    {
      LineHasNoBreak(t, k, Split(t, "\n")[k]);
    }
  }

  lemma LineHasNoBreak(t: string, k: nat, piece: string)
    requires forall i :: 0 <= i < |t| && IsLineBreak(t[i]) ==> t[i] == '\n'
    requires k < |Split(t, "\n")| && piece == Split(t, "\n")[k]
    ensures Strip(Strip(piece)) == Strip(piece) && '\n' !in Strip(piece) && '\r' !in Strip(piece)
  {
    assert '\r' !in t;
    SplitPieceChars(t, "\n", k, '\r');
    SplitPiecesLackSeparator(t, "\n");
    assert !Contains(piece, "\n");
    CharContained(piece, '\n');
    StripChars(piece, '\n');
    StripChars(piece, '\r');
    StripIdempotent(piece);
  }

  /** A line the text form carries unchanged: non-empty, stripped, no
      line break inside. */
  predicate IsLine(w: string) {
    w != [] && Strip(w) == w && '\n' !in w && '\r' !in w
  }

  /** Lines written one per line are read back as they were. */
  lemma SplitLinesJoin(lines: seq<string>)
    requires |lines| >= 1 && forall k :: 0 <= k < |lines| ==> IsLine(lines[k])
    ensures SplitLines(Join(lines, "\n")) == lines
  {
    var s := Join(lines, "\n");
    JoinStripped(lines);
    JoinKeepsBreaks(lines);
    forall k | 0 <= k < |lines| ensures !Contains(lines[k], "\n") {
      ContainsChar(lines[k], '\n');
    }
    SplitJoin(lines, "\n");
    StripAllKeepsStripped(lines);
  }

  // ---------------------------------------------------------------------
  // Lines laid out with any line breaks and padding
  // ---------------------------------------------------------------------

  /** Whitespace that is not a line break. */
  predicate IsPad(w: string) {
    forall i :: 0 <= i < |w| ==> IsSpace(w[i]) && !IsLineBreak(w[i])
  }

  predicate AllSpace(w: string) {
    forall i :: 0 <= i < |w| ==> IsSpace(w[i])
  }

  /** What separates two lines: padding, a non-empty run of `\n` and `\r`
      (blank lines included), padding. */
  datatype Gap = Gap(before: string, breaks: string, after: string)

  predicate IsGap(g: Gap) {
    && IsPad(g.before) && IsPad(g.after)
    && g.breaks != [] && forall i :: 0 <= i < |g.breaks| ==> IsLineBreak(g.breaks[i])
  }

  /** The lines with the gaps between them. */
  function Laid(lines: seq<string>, gaps: seq<Gap>): string
    requires |lines| >= 1 && |gaps| == |lines| - 1
    decreases |lines|
  {
    if |lines| == 1 then lines[0]
    else
      var g := gaps[0];
      lines[0] + g.before + g.breaks + g.after + Laid(lines[1..], gaps[1..])
  }

  /** The pieces the collapsed text splits into: each line with the
      padding on either side of it, `lead` in front of the first. */
  function Pieces(lines: seq<string>, gaps: seq<Gap>, lead: string): seq<string>
    requires |lines| >= 1 && |gaps| == |lines| - 1
    decreases |lines|
  {
    if |lines| == 1 then [lead + lines[0]]
    else [lead + lines[0] + gaps[0].before] + Pieces(lines[1..], gaps[1..], gaps[0].after)
  }

  /** A line as the layout writes it: non-empty, neither end whitespace,
      no line break. */
  predicate Trimmed(w: string) {
    && w != [] && !IsSpace(w[0]) && !IsSpace(w[|w| - 1])
    && forall i :: 0 <= i < |w| ==> !IsLineBreak(w[i])
  }

  ghost predicate Layout(lines: seq<string>, gaps: seq<Gap>) {
    && |lines| >= 1 && |gaps| == |lines| - 1
    && (forall k :: 0 <= k < |lines| ==> Trimmed(lines[k]))
    && (forall k :: 0 <= k < |gaps| ==> IsGap(gaps[k]))
  }

  lemma LayoutTail(lines: seq<string>, gaps: seq<Gap>)
    requires Layout(lines, gaps) && |lines| > 1
    ensures Layout(lines[1..], gaps[1..])
  {
    assert forall k :: 0 <= k < |lines| - 1 ==> lines[1..][k] == lines[k + 1];
    assert forall k :: 0 <= k < |gaps| - 1 ==> gaps[1..][k] == gaps[k + 1];
  }

  /** Lines written with any padding and any non-empty runs of line breaks
      between them, and any whitespace before and after, are read back as
      they were. */
  lemma SplitLinesLayout(lead: string, lines: seq<string>, gaps: seq<Gap>, trail: string)
    requires Layout(lines, gaps) && AllSpace(lead) && AllSpace(trail)
    ensures SplitLines(lead + Laid(lines, gaps) + trail) == lines
  {
    var body := Laid(lines, gaps);
    LaidEnds(lines, gaps);
    StripPadded(lead, body, trail);
    assert "" + body == body;
    assert IsPad("");
    CollapseLaid(lines, gaps, "");
    var ps := Pieces(lines, gaps, "");
    PiecesLines(lines, gaps, "");
    PiecesStripped(lines, gaps, "");
    forall k | 0 <= k < |ps| ensures !Contains(ps[k], "\n") {
      ContainsChar(ps[k], '\n');
    }
    SplitJoin(ps, "\n");
  }

  /** A laid-out text starts with its first line's first character and
      ends with its last line's last character. */
  lemma {:induction false} LaidEnds(lines: seq<string>, gaps: seq<Gap>)
    requires Layout(lines, gaps)
    ensures var b := Laid(lines, gaps);
      |b| > 0 && b[0] == lines[0][0] && b[|b| - 1] == Last(lines)[|Last(lines)| - 1]
    decreases |lines|
  {
    if |lines| > 1 {
      var g := gaps[0];
      var rest := Laid(lines[1..], gaps[1..]);
      LayoutTail(lines, gaps);
      LaidEnds(lines[1..], gaps[1..]);
      assert Last(lines[1..]) == Last(lines);
      var b := lines[0] + g.before + g.breaks + g.after + rest;
      assert b[|b| - 1] == rest[|rest| - 1];
    }
  }

  /** Whitespace around a text that neither starts nor ends with
      whitespace is what `strip()` removes. */
  lemma StripPadded(lead: string, body: string, trail: string)
    requires AllSpace(lead) && AllSpace(trail)
    requires body != [] && !IsSpace(body[0]) && !IsSpace(body[|body| - 1])
    ensures Strip(lead + body + trail) == body
  {
    var s := lead + body + trail;
    var j := |lead| + |body|;
    forall k | 0 <= k < |lead| ensures IsSpace(s[k]) {
      assert s[k] == lead[k];
    }
    forall k | j <= k < |s| ensures IsSpace(s[k]) {
      assert s[k] == trail[k - j];
    }
    assert s[|lead|] == body[0] && s[j - 1] == body[|body| - 1];
    StripCharacterised(s, |lead|, j);
    assert s[|lead|..j] == body;
  }

  /** Collapsing the line breaks of a laid-out text leaves one `\n`
      between consecutive pieces. */
  lemma {:induction false} CollapseLaid(lines: seq<string>, gaps: seq<Gap>, lead: string)
    requires Layout(lines, gaps) && IsPad(lead)
    ensures ReplaceRuns(lead + Laid(lines, gaps), IsLineBreak, '\n') == Join(Pieces(lines, gaps, lead), "\n")
    decreases |lines|
  {
    if |lines| == 1 {
      CollapseOneLine(lead, lines[0]);
    } else {
      LayoutTail(lines, gaps);
      CollapseLaid(lines[1..], gaps[1..], gaps[0].after);
      CollapseStep(lines, gaps, lead);
    }
  }

  lemma CollapseOneLine(lead: string, line: string)
    requires IsPad(lead) && Trimmed(line)
    ensures ReplaceRuns(lead + line, IsLineBreak, '\n') == lead + line
  {
    NoBreaks(lead, line);
    ReplaceRunsOutside(lead + line, [], IsLineBreak, '\n');
    assert lead + line + [] == lead + line;
  }

  /** The first gap's line breaks become one `\n`; the rest is collapsed
      as the shorter layout. */
  lemma CollapseStep(lines: seq<string>, gaps: seq<Gap>, lead: string)
    requires Layout(lines, gaps) && IsPad(lead) && |lines| > 1
    requires Layout(lines[1..], gaps[1..])
    requires ReplaceRuns(gaps[0].after + Laid(lines[1..], gaps[1..]), IsLineBreak, '\n')
             == Join(Pieces(lines[1..], gaps[1..], gaps[0].after), "\n")
    ensures ReplaceRuns(lead + Laid(lines, gaps), IsLineBreak, '\n') == Join(Pieces(lines, gaps, lead), "\n")
  {
    var g := gaps[0];
    var rest := Laid(lines[1..], gaps[1..]);
    var x := lead + lines[0] + g.before;
    NoBreaks(lead, lines[0]);
    NoBreaks(lead + lines[0], g.before);
    var y := g.after + rest;
    LaidEnds(lines[1..], gaps[1..]);
    assert y == [] || !IsLineBreak(y[0]) by {
      if g.after == [] {
        assert y == rest;
        assert rest[0] == lines[1][0];
      } else {
        assert y[0] == g.after[0];
      }
    }
    LaidFirst(lines, gaps);
    Regroup(lead, lines[0], g.before, g.breaks, g.after, rest);
    ReplaceRunsStep(x, g.breaks, y, IsLineBreak, '\n');
    var tail := Pieces(lines[1..], gaps[1..], g.after);
    assert Pieces(lines, gaps, lead) == [x] + tail;
    JoinCons([x] + tail, "\n");
    assert ([x] + tail)[1..] == tail;
  }

  lemma LaidFirst(lines: seq<string>, gaps: seq<Gap>)
    requires |lines| > 1 && |gaps| == |lines| - 1
    ensures Laid(lines, gaps) == lines[0] + gaps[0].before + gaps[0].breaks + gaps[0].after + Laid(lines[1..], gaps[1..])
  {
  }

  lemma Regroup(lead: string, a: string, b: string, c: string, d: string, e: string)
    ensures lead + (a + b + c + d + e) == (lead + a + b) + c + (d + e)
  {
  }

  /** Padding followed by a line holds no line break. */
  lemma NoBreaks(a: string, b: string)
    requires forall i :: 0 <= i < |a| ==> !IsLineBreak(a[i])
    requires forall i :: 0 <= i < |b| ==> !IsLineBreak(b[i])
    ensures forall i :: 0 <= i < |a + b| ==> !IsLineBreak((a + b)[i])
  {
    forall i | |a| <= i < |a + b| ensures !IsLineBreak((a + b)[i]) {
      assert (a + b)[i] == b[i - |a|];
    }
  }

  /** Each piece is a line with padding around it: no `\n` inside. */
  lemma {:induction false} PiecesLines(lines: seq<string>, gaps: seq<Gap>, lead: string)
    requires Layout(lines, gaps) && IsPad(lead)
    ensures |Pieces(lines, gaps, lead)| == |lines|
    ensures forall k :: 0 <= k < |lines| ==> '\n' !in Pieces(lines, gaps, lead)[k]
    decreases |lines|
  {
    if |lines| == 1 {
      assert IsPad([]);
      PieceLine(lead, lines[0], []);
      assert lead + lines[0] + [] == lead + lines[0];
    } else {
      var g := gaps[0];
      var p := lead + lines[0] + g.before;
      PieceLine(lead, lines[0], g.before);
      LayoutTail(lines, gaps);
      PiecesLines(lines[1..], gaps[1..], g.after);
      var tail := Pieces(lines[1..], gaps[1..], g.after);
      var ps := [p] + tail;
      assert Pieces(lines, gaps, lead) == ps;
      forall k | 1 <= k < |lines| ensures '\n' !in ps[k] {
        assert ps[k] == tail[k - 1];
      }
    }
  }

  /** Stripped, the pieces are the lines. */
  lemma {:induction false} PiecesStripped(lines: seq<string>, gaps: seq<Gap>, lead: string)
    requires Layout(lines, gaps) && IsPad(lead)
    ensures StripAll(Pieces(lines, gaps, lead)) == lines
    decreases |lines|
  {
    if |lines| == 1 {
      assert IsPad([]);
      PieceStripCons(lead, lines[0], [], []);
      assert lead + lines[0] + [] == lead + lines[0];
      assert [lead + lines[0]] + [] == [lead + lines[0]];
    } else {
      var g := gaps[0];
      var p := lead + lines[0] + g.before;
      LayoutTail(lines, gaps);
      PiecesStripped(lines[1..], gaps[1..], g.after);
      var tail := Pieces(lines[1..], gaps[1..], g.after);
      assert Pieces(lines, gaps, lead) == [p] + tail;
      PieceStripCons(lead, lines[0], g.before, tail);
      assert lines == [lines[0]] + lines[1..];
    }
  }

  lemma StripAllCons(p: string, tail: seq<string>)
    ensures StripAll([p] + tail) == [Strip(p)] + StripAll(tail)
  {
    var l := StripAll([p] + tail);
    var r := [Strip(p)] + StripAll(tail);
    forall k | 0 <= k < |l| ensures l[k] == r[k] {
      if k > 0 {
        assert ([p] + tail)[k] == tail[k - 1];
      }
    }
  }

  /** One line with padding on either side. */
  lemma PieceLine(lead: string, w: string, after: string)
    requires IsPad(lead) && Trimmed(w) && IsPad(after)
    ensures '\n' !in lead + w + after
  {
    NoBreaks(lead, w);
    NoBreaks(lead + w, after);
    var p := lead + w + after;
    assert forall i :: 0 <= i < |p| ==> p[i] != '\n';
  }

  lemma PieceStripCons(lead: string, w: string, after: string, tail: seq<string>)
    requires IsPad(lead) && Trimmed(w) && IsPad(after)
    ensures StripAll([lead + w + after] + tail) == [w] + StripAll(tail)
  {
    StripPadded(lead, w, after);
    StripAllCons(lead + w + after, tail);
  }

  lemma JoinStripped(lines: seq<string>)
    requires |lines| >= 1 && forall k :: 0 <= k < |lines| ==> IsLine(lines[k])
    ensures Strip(Join(lines, "\n")) == Join(lines, "\n")
  {
    JoinEnds(lines, "\n");
    assert !IsSpace(lines[0][0]) && !IsSpace(Last(lines)[|Last(lines)| - 1]);
    StripNoop(Join(lines, "\n"));
  }

  lemma StripAllKeepsStripped(xs: seq<string>)
    requires forall k :: 0 <= k < |xs| ==> Strip(xs[k]) == xs[k]
    ensures StripAll(xs) == xs
  {
  }

  /** Joining lines with single `\n`s leaves no run to collapse. */
  lemma {:induction false} JoinKeepsBreaks(lines: seq<string>)
    requires |lines| >= 1 && forall k :: 0 <= k < |lines| ==> IsLine(lines[k])
    ensures ReplaceRuns(Join(lines, "\n"), IsLineBreak, '\n') == Join(lines, "\n")
    decreases |lines|
  {
    var x := lines[0];
    assert forall i :: 0 <= i < |x| ==> !IsLineBreak(x[i]);
    if |lines| == 1 {
      ReplaceRunsOutside(x, [], IsLineBreak, '\n');
      assert x + [] == x;
    } else {
      var rest := lines[1..];
      var j := Join(rest, "\n");
      JoinKeepsBreaks(rest);
      JoinEnds(rest, "\n");
      assert j[0] == lines[1][0];
      ReplaceRunsSingle('\n', j, IsLineBreak, '\n');
      ReplaceRunsOutside(x, ['\n'] + j, IsLineBreak, '\n');
      JoinCons(lines, "\n");
    }
  }

  /** The URLs as given. */
  function Given(src: Source): seq<string> {
    match src
    case Text(text) => SplitLines(text)
    case Urls(urls) => urls
  }

  /** `self._urls`: sorted with exact duplicates removed when `sort` is
      set, else as given. */
  function InitialUrls(src: Source, sort: bool): (urls: seq<string>)
    ensures forall u :: u in urls <==> u in Given(src)
    ensures sort ==> StrictlySorted(urls)
    ensures !sort ==> urls == Given(src)
  {
    if sort then SortedSet(Given(src)) else Given(src)
  }

  /** Sorting makes the order and the repetitions of the given URLs
      irrelevant: lists with the same elements give the same `_urls`. */
  lemma SortedInitialIsCanonical(xs: seq<string>, ys: seq<string>)
    requires forall u :: u in xs <==> u in ys
    ensures InitialUrls(Urls(xs), true) == InitialUrls(Urls(ys), true)
  {
    SortedUnique(InitialUrls(Urls(xs), true), InitialUrls(Urls(ys), true));
  }

  // ---------------------------------------------------------------------
  // Links.parse
  // ---------------------------------------------------------------------

  /** The shortened-link test `re.search('t.co/', url)`; its `.` is any
      character but a newline. */
  predicate Shortened(url: string) {
    Search(url, Dotted("t.co/"))
  }

  /** A shortened link is replaced by the target of the last redirect;
      with no redirect the source's `history[-1]` fails. */
  function Expand(env: Env, url: string): (r: Result<string>)
    ensures !Shortened(url) ==> r == Ok(url)
    ensures Shortened(url) ==> (r.Ok? <==> env.redirect(url).Some?)
    ensures r.Ok? && r.value != url ==> Shortened(url) && r.value == env.redirect(url).value
  {
    if Shortened(url) then
      match env.redirect(url)
      case None => Fail(NoRedirect(url))
      case Some(target) => Ok(target)
    else Ok(url)
  }

  /** The test is not anchored to the host and its `.` is a wildcard: any
      URL holding `t`, one character, `co/` is treated as shortened (a
      host ending in `t.co`, a path segment `at_co/`). */
  lemma LookalikeShortened(url: string, c: char)
    requires c != '\n' && Contains(url, ['t', c, 'c', 'o', '/'])
    ensures Shortened(url)
  {
    var p := ['t', c, 'c', 'o', '/'];
    var i := Find(url, p).value;
    var pat := Dotted("t.co/");
    assert url[i..i + 5] == p;
    forall j | 0 <= j < 5 ensures AtomMatches(pat[j], url[i + j]) {
      assert url[i + j] == p[j];
    }
    assert MatchAt(url, pat, i);
    SearchFindsMatch(url, pat);
  }

  /** One iteration of the loop: expand, dispatch, parse. The source's
      `assert(hurl == _id)` always holds: the id is the hash of the
      normalised URL. */
  function ParseOne(env: Env, raw: string): (r: Result<Record>)
    ensures Expand(env, raw).Fail? ==> r == Fail(Expand(env, raw).error)
    ensures Expand(env, raw).Ok? ==>
      r == ParseLink(env, KindOf(Expand(env, raw).value), Expand(env, raw).value)
    ensures r.Ok? ==> r.value.id == HashUrl(env.sha1, r.value.url, Some(DefaultIdLength))
  {
    match Expand(env, raw)
    case Fail(e) => Fail(e)
    case Ok(url) => ParseLink(env, KindOf(url), url)
  }

  /** `ParseOne` for one environment. */
  function LinkParser(env: Env): string -> Result<Record> {
    raw => ParseOne(env, raw)
  }

  /** Every link parsed in order by `one`; the first failure ends the
      loop. */
  function ParseEach(one: string -> Result<Record>, urls: seq<string>): (r: Result<seq<Record>>)
    ensures r.Ok? <==> forall k :: 0 <= k < |urls| ==> one(urls[k]).Ok?
    ensures r.Ok? ==> |r.value| == |urls|
    ensures r.Ok? ==> forall k :: 0 <= k < |urls| ==> r.value[k] == one(urls[k]).value
    ensures r.Fail? ==> exists k :: FirstFailure(one, urls, k) && one(urls[k]) == Fail(r.error)
    decreases |urls|
  {
    if urls == [] then Ok([])
    else
      var init := urls[..|urls| - 1];
      assert forall k :: 0 <= k < |init| ==> init[k] == urls[k];
      match ParseEach(one, init)
      case Fail(e) =>
        assert exists k :: FirstFailure(one, init, k) && one(init[k]) == Fail(e);
        var k :| FirstFailure(one, init, k) && one(init[k]) == Fail(e);
        assert FirstFailure(one, urls, k);
        Fail(e)
      case Ok(recs) =>
        match one(Last(urls))
        case Fail(e) =>
          assert FirstFailure(one, urls, |urls| - 1);
          Fail(e)
        case Ok(rec) => Ok(recs + [rec])
  }

  /** The `k`-th link fails and every one before it succeeds. */
  predicate FirstFailure(one: string -> Result<Record>, urls: seq<string>, k: int) {
    0 <= k < |urls| && one(urls[k]).Fail? &&
    forall j :: 0 <= j < k ==> one(urls[j]).Ok?
  }

  /** Only one link can be the first to fail, and its error is the loop's. */
  lemma FirstFailureUnique(one: string -> Result<Record>, urls: seq<string>, k: int)
    requires FirstFailure(one, urls, k)
    ensures ParseEach(one, urls) == Fail(one(urls[k]).error)
  {
    var r := ParseEach(one, urls);
    var k' :| FirstFailure(one, urls, k') && one(urls[k']) == Fail(r.error);
    if k' < k {
    } else if k < k' {
    }
  }

  /** `self.data`: each record stored under its id, a later record
      replacing an earlier one with the same id. */
  function IndexById(recs: seq<Record>): (m: map<string, Record>)
    ensures forall id :: id in m ==> m[id].id == id
    ensures |m| <= |recs|
    decreases |recs|
  {
    if recs == [] then map[]
    else
      var m0 := IndexById(recs[..|recs| - 1]);
      var rec := Last(recs);
      assert m0[rec.id := rec].Keys == m0.Keys + {rec.id};
      assert |m0.Keys + {rec.id}| <= |m0.Keys| + 1;
      m0[rec.id := rec]
  }

  /** The keys of `data` are exactly the ids of the records. */
  lemma {:induction false} IndexKeys(recs: seq<Record>, id: string)
    ensures id in IndexById(recs) <==> exists k :: 0 <= k < |recs| && recs[k].id == id
    decreases |recs|
  {
    if recs != [] {
      var init := recs[..|recs| - 1];
      IndexKeys(init, id);
      if exists k :: 0 <= k < |init| && init[k].id == id {
        var k :| 0 <= k < |init| && init[k].id == id;
        assert recs[k].id == id;
      }
      if exists k :: 0 <= k < |recs| && recs[k].id == id {
        var k :| 0 <= k < |recs| && recs[k].id == id;
        if k < |init| { assert init[k].id == id; }
      }
    }
  }

  /** A record that no later record shares its id with is the one kept. */
  lemma {:induction false} IndexLastWins(recs: seq<Record>, k: nat)
    requires k < |recs| && LastWithId(recs, k)
    ensures recs[k].id in IndexById(recs) && IndexById(recs)[recs[k].id] == recs[k]
    decreases |recs|
  {
    var init := recs[..|recs| - 1];
    if k < |init| {
      assert init[k] == recs[k];
      assert LastWithId(init, k) by {
        forall j | k < j < |init| ensures init[j].id != init[k].id {
          assert init[j] == recs[j];
        }
      }
      IndexLastWins(init, k);
    }
  }

  /** No later record shares the id of the `k`-th one. */
  predicate LastWithId(recs: seq<Record>, k: int)
    requires 0 <= k < |recs|
  {
    forall j :: k < j < |recs| ==> recs[j].id != recs[k].id
  }

  function UrlsOf(recs: seq<Record>): (urls: seq<string>)
    ensures |urls| == |recs| && forall k :: 0 <= k < |recs| ==> urls[k] == recs[k].url
  {
    seq(|recs|, k requires 0 <= k < |recs| => recs[k].url)
  }

  /** `Links` after `parse()`: `_urls` rewritten to the normalised URLs,
      `data` keyed by id. */
  datatype Links = Links(urls: seq<string>, data: map<string, Record>)

  /** Each record `one` returns carries the id `idOf` gives its URL. */
  ghost predicate IdsByUrl(one: string -> Result<Record>, idOf: string -> string) {
    forall u :: one(u).Ok? ==> one(u).value.id == idOf(one(u).value.url)
  }

  /** `parse()`, as a loop over `_urls`, for any per-link parser. */
  method ParseLoop(one: string -> Result<Record>, idOf: string -> string, urls: seq<string>) returns (r: Result<Links>)
    requires IdsByUrl(one, idOf)
    ensures r.Ok? <==> ParseEach(one, urls).Ok?
    ensures r.Fail? ==> r.error == ParseEach(one, urls).error
    ensures r.Ok? ==> r.value.urls == UrlsOf(ParseEach(one, urls).value)
    ensures r.Ok? ==> r.value.data == IndexById(ParseEach(one, urls).value)
    ensures r.Ok? ==> |r.value.urls| == |urls| && |r.value.data| <= |urls|
    ensures r.Ok? ==> forall id :: id in r.value.data ==> id == idOf(r.value.data[id].url)
  {
    var done: seq<Record> := [];
    var data: map<string, Record> := map[];
    var out := urls;
    for k := 0 to |urls|
      invariant ParseEach(one, urls[..k]) == Ok(done) && |done| == k
      invariant data == IndexById(done)
      invariant forall id :: id in data ==> id == idOf(data[id].url)
      invariant |out| == |urls|
      invariant forall j :: 0 <= j < k ==> out[j] == done[j].url
      invariant forall j :: k <= j < |urls| ==> out[j] == urls[j]
    {
      var rec := one(urls[k]);
      if rec.Fail? {
        PrefixFails(one, urls, k, done);
        return Fail(rec.error);
      }
      PrefixGrows(one, urls, k, done);
      IndexSnoc(done, rec.value);
      OutStep(out, done, urls, k, rec.value);
      done := done + [rec.value];
      data := data[rec.value.id := rec.value];
      out := out[k := rec.value.url];
    }
    assert urls[..|urls|] == urls;
    assert out == UrlsOf(done);
    r := Ok(Links(out, data));
  }

  /** Writing the normalised URL back in place of the `k`-th one. */
  lemma OutStep(out: seq<string>, done: seq<Record>, urls: seq<string>, k: nat, rec: Record)
    requires k < |urls| == |out| && |done| == k
    requires forall j :: 0 <= j < k ==> out[j] == done[j].url
    requires forall j :: k <= j < |urls| ==> out[j] == urls[j]
    ensures forall j :: 0 <= j < k + 1 ==> out[k := rec.url][j] == (done + [rec])[j].url
    ensures forall j :: k + 1 <= j < |urls| ==> out[k := rec.url][j] == urls[j]
  {
  }

  lemma PrefixGrows(one: string -> Result<Record>, urls: seq<string>, k: nat, done: seq<Record>)
    requires k < |urls| && ParseEach(one, urls[..k]) == Ok(done) && one(urls[k]).Ok?
    ensures ParseEach(one, urls[..k + 1]) == Ok(done + [one(urls[k]).value])
  {
    assert urls[..k + 1][..k] == urls[..k];
  }

  lemma PrefixFails(one: string -> Result<Record>, urls: seq<string>, k: nat, done: seq<Record>)
    requires k < |urls| && ParseEach(one, urls[..k]) == Ok(done) && one(urls[k]).Fail?
    ensures ParseEach(one, urls) == Fail(one(urls[k]).error)
  {
    assert FirstFailure(one, urls, k) by {
      forall j | 0 <= j < k ensures one(urls[j]).Ok? {
        assert urls[..k][j] == urls[j];
      }
    }
    FirstFailureUnique(one, urls, k);
  }

  lemma IndexSnoc(recs: seq<Record>, rec: Record)
    ensures IndexById(recs + [rec]) == IndexById(recs)[rec.id := rec]
  {
    assert (recs + [rec])[..|recs|] == recs;
  }

  /** The id `Links.parse` checks each record against. */
  function IdOf(env: Env): string -> string {
    url => HashUrl(env.sha1, url, Some(DefaultIdLength))
  }

  /** The source's `assert(hurl == _id)` never fails. */
  lemma LinkIdsByUrl(env: Env)
    ensures IdsByUrl(LinkParser(env), IdOf(env))
  {
  }

  /** `Links(src, sort).parse()`. */
  method Parse(env: Env, src: Source, sort: bool) returns (r: Result<Links>)
    ensures r.Ok? <==> ParseEach(LinkParser(env), InitialUrls(src, sort)).Ok?
    ensures r.Ok? ==> r.value.urls == UrlsOf(ParseEach(LinkParser(env), InitialUrls(src, sort)).value)
    ensures r.Ok? ==> r.value.data == IndexById(ParseEach(LinkParser(env), InitialUrls(src, sort)).value)
    ensures r.Ok? ==> |r.value.data| <= |InitialUrls(src, sort)|
    ensures r.Ok? ==> forall id :: id in r.value.data ==>
      id == HashUrl(env.sha1, r.value.data[id].url, Some(DefaultIdLength))
  {
    LinkIdsByUrl(env);
    r := ParseLoop(LinkParser(env), IdOf(env), InitialUrls(src, sort));
  }
}
