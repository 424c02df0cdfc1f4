/** `Transcript.as_srt` of `zktools/transcript.py`: a transcript split
    into blank-line separated blocks becomes numbered subtitle cues. Each
    cue starts at the block's first `hh:mm:ss` stamp and ends where the
    next cue starts; its text is the rest of the line after the first
    `):`. */
module Transcript {
  import opened Results
  import opened PyStr

  // ---------------------------------------------------------------------
  // One block
  // ---------------------------------------------------------------------

  /** `\d\d:\d\d:\d\d` at `i`. */
  predicate StampAt(b: string, i: nat) {
    i + 8 <= |b|
    && IsDigit(b[i]) && IsDigit(b[i + 1]) && b[i + 2] == ':'
    && IsDigit(b[i + 3]) && IsDigit(b[i + 4]) && b[i + 5] == ':'
    && IsDigit(b[i + 6]) && IsDigit(b[i + 7])
  }

  /** `re_clip_start.search` from `i`: the leftmost stamp. */
  function FirstStamp(b: string, i: nat): (p: Option<nat>)
    ensures p.Some? ==> i <= p.value && StampAt(b, p.value)
    ensures p.Some? ==> forall j :: i <= j < p.value ==> !StampAt(b, j)
    ensures p.None? ==> forall j :: i <= j ==> !StampAt(b, j)
    decreases |b| - i
  {
    if i + 8 > |b| then None
    else if StampAt(b, i) then Some(i)
    else FirstStamp(b, i + 1)
  }

  /** `\):\n?(.+)` tried at `p`: where the text starts and ends. The `\n?`
      is greedy; giving it back cannot help, since `.` does not match the
      newline it gave back. */
  function BodyAt(b: string, p: nat): (span: Option<(nat, nat)>)
    ensures span.Some? ==> OccursAt(b, "):", p)
    ensures span.Some? ==>
              var (q, e) := span.value;
              q == (if p + 2 < |b| && b[p + 2] == '\n' then p + 3 else p + 2)
              && q < e <= |b| && (e == |b| || b[e] == '\n')
              && forall j :: q <= j < e ==> b[j] != '\n'
  {
    if !OccursAt(b, "):", p) then None
    else
      var q := if p + 2 < |b| && b[p + 2] == '\n' then p + 3 else p + 2;
      var e := RunEnd(b, q, c => c == '\n');
      if e == q then None else Some((q, e))
  }

  /** `re_clip_body.search` from `i`: where the leftmost `):` followed by
      text is. */
  function FirstBody(b: string, i: nat): (p: Option<nat>)
    ensures p.Some? ==> i <= p.value && BodyAt(b, p.value).Some?
    ensures p.Some? ==> forall j :: i <= j < p.value ==> BodyAt(b, j).None?
    ensures p.None? ==> forall j :: i <= j ==> BodyAt(b, j).None?
    decreases |b| - i
  {
    if i + 2 > |b| then
      assert forall j :: i <= j ==> !OccursAt(b, "):", j);
      None
    else if BodyAt(b, i).Some? then Some(i)
    else FirstBody(b, i + 1)
  }

  /** What a block contributes: its start stamp and its text. */
  datatype Clip = Clip(start: string, body: string)

  /** One block: the stamp is looked for first, then the text; a block
      missing either aborts. */
  function ParseBlock(b: string): (r: Result<Clip>)
    ensures FirstStamp(b, 0).None? <==> r == Fail(NoTimestamp(b))
    ensures FirstStamp(b, 0).Some? && FirstBody(b, 0).None? <==> r == Fail(NoBody(b))
    ensures r.Ok? ==> |r.value.start| == 8 && StampAt(r.value.start, 0)
    ensures r.Ok? ==> r.value.body != [] && '\n' !in r.value.body
    ensures r.Ok? ==>
              var p := FirstStamp(b, 0).value;
              var (q, e) := BodyAt(b, FirstBody(b, 0).value).value;
              r.value == Clip(b[p..p + 8], b[q..e])
  {
    match FirstStamp(b, 0)
    case None => Fail(NoTimestamp(b))
    case Some(p) =>
      match FirstBody(b, 0)
      case None => Fail(NoBody(b))
      case Some(at) =>
        var (q, e) := BodyAt(b, at).value;
        assert forall j :: 0 <= j < e - q ==> b[q..e][j] == b[q + j];
        Ok(Clip(b[p..p + 8], b[q..e]))
  }

  /** The text found after the first `):` when no `)` comes before it
      and the rest of the block, after a newline, is one line. */
  lemma BodyFoundAt(b: string, p: nat)
    requires p + 3 < |b| && b[p..p + 3] == "):\n"
    requires forall j :: 0 <= j < p ==> b[j] != ')'
    requires forall j :: p + 3 <= j < |b| ==> b[j] != '\n'
    ensures FirstBody(b, 0) == Some(p) && BodyAt(b, p) == Some((p + 3, |b|))
  {
    BodyHere(b, p);
    forall j | 0 <= j < p ensures BodyAt(b, j).None? {
      assert b[j..j + 2][0] == b[j];
    }
  }

  /** The text after `):` and a newline runs to the end of a block with no
      further newline. */
  lemma BodyHere(b: string, p: nat)
    requires p + 3 < |b| && b[p..p + 3] == "):\n"
    requires forall j :: p + 3 <= j < |b| ==> b[j] != '\n'
    ensures BodyAt(b, p) == Some((p + 3, |b|))
  {
    assert b[p + 2] == b[p..p + 3][2];
    assert OccursAt(b, "):", p) by {
      assert b[p..p + 2] == b[p..p + 3][..2];
    }
    RunEndAt(b, p + 3, c => c == '\n', |b|);
  }

  /** A block as the transcript writes it, `hh:mm:ss (speaker):` and the
      text on the next line, yields that stamp and that text. */
  lemma {:induction false} WrittenBlock(stamp: string, speaker: string, body: string)
    requires |stamp| == 8 && StampAt(stamp, 0)
    requires ')' !in speaker
    requires body != [] && '\n' !in body
    ensures ParseBlock(stamp + " (" + speaker + "):\n" + body) == Ok(Clip(stamp, body))
  {
    var b := stamp + " (" + speaker + "):\n" + body;
    var p := 10 + |speaker|;
    assert b[..8] == stamp;
    assert StampAt(b, 0);
    assert b[p..p + 3] == "):\n";
    forall j | 0 <= j < p ensures b[j] != ')' {
      if j < 8 {
        assert b[j] == stamp[j];
      } else if 10 <= j {
        assert b[j] == speaker[j - 10];
      }
    }
    forall j | p + 3 <= j < |b| ensures b[j] != '\n' {
      assert b[j] == body[j - p - 3];
    }
    BodyFoundAt(b, p);
    assert b[0..8] == stamp && b[p + 3..|b|] == body;
  }

  /** The blocks of the transcript, in order. */
  function Blocks(txt: string): (bs: seq<string>)
    ensures |bs| >= 1 && Join(bs, "\n\n") == txt
  {
    JoinSplit(txt, "\n\n");
    Split(txt, "\n\n")
  }

  /** Block `k` is the first that `parse` rejects. */
  predicate FailsFirstAt<T>(bs: seq<string>, parse: string -> Result<T>, k: nat) {
    k < |bs| && parse(bs[k]).Fail? && forall j :: 0 <= j < k ==> parse(bs[j]).Ok?
  }

  /** Every block parsed in order; the first failing block aborts. */
  function ParseEach<T>(bs: seq<string>, parse: string -> Result<T>): (r: Result<seq<T>>)
    ensures r.Ok? <==> forall k :: 0 <= k < |bs| ==> parse(bs[k]).Ok?
    ensures r.Ok? ==> |r.value| == |bs| && forall k :: 0 <= k < |bs| ==> r.value[k] == parse(bs[k]).value
    ensures r.Fail? ==> exists k: nat :: FailsFirstAt(bs, parse, k) && parse(bs[k]) == Fail(r.error)
    decreases |bs|
  {
    if bs == [] then Ok([])
    else match parse(bs[0])
      case Fail(e) =>
        assert FailsFirstAt(bs, parse, 0);
        Fail(e)
      case Ok(c) =>
        var rest := bs[1..];
        match ParseEach(rest, parse)
        case Fail(e) =>
          var k: nat :| FailsFirstAt(rest, parse, k) && parse(rest[k]) == Fail(e);
          assert FailsFirstAt(bs, parse, k + 1) by {
            forall j | 0 <= j < k + 1 ensures parse(bs[j]).Ok? {
              if j > 0 {
                assert bs[j] == rest[j - 1];
              }
            }
          }
          Fail(e)
        case Ok(done) =>
          assert forall k :: 0 < k < |bs| ==> bs[k] == rest[k - 1];
          Ok([c] + done)
  }

  // ---------------------------------------------------------------------
  // Cues
  // ---------------------------------------------------------------------

  datatype Cue = Cue(id: nat, start: string, end: string, body: string)

  /** Where cue `k` ends once every cue has been built: the next cue's
      start; for the last cue, which no later cue ripples, the start of
      the cue before it, or `00:00:00` when it is the only one. */
  function FinalEnd(clips: seq<Clip>, k: nat): string
    requires k < |clips|
  {
    if k + 1 < |clips| then clips[k + 1].start
    else if k > 0 then clips[k - 1].start
    else "00:00:00"
  }

  /** The loop of `as_srt`: each clip is appended with the previous clip's
      start as a provisional end, then that previous cue's end is set to
      the new clip's start. */
  method Ripple(clips: seq<Clip>) returns (cues: seq<Cue>)
    ensures |cues| == |clips|
    ensures forall k :: 0 <= k < |clips| ==>
              cues[k] == Cue(k, clips[k].start, FinalEnd(clips, k), clips[k].body)
  {
    cues := [];
    for i := 0 to |clips|
      invariant |cues| == i
      invariant forall k :: 0 <= k < i ==>
                  cues[k].id == k && cues[k].start == clips[k].start && cues[k].body == clips[k].body
      invariant forall k :: 0 <= k < i - 1 ==> cues[k].end == clips[k + 1].start
      invariant i > 0 ==> cues[i - 1].end == if i > 1 then clips[i - 2].start else "00:00:00"
    {
      var end := if i == 0 then "00:00:00" else cues[i - 1].start;
      cues := cues + [Cue(i, clips[i].start, end, clips[i].body)];
      if i > 0 {
        cues := cues[i - 1 := cues[i - 1].(end := clips[i].start)];
      }
    }
  }

  /** `f'{_id}\n{start} --> {end}\n{body}\n\n'`. */
  function CueText(c: Cue): (t: string)
    ensures StartsWith(t, NatToString(c.id) + "\n") && EndsWith(t, c.body + "\n\n")
  {
    var head := NatToString(c.id) + "\n";
    var tail := c.body + "\n\n";
    var t := head + (c.start + " --> " + c.end + "\n") + tail;
    assert t[..|head|] == head && t[|t| - |tail|..] == tail;
    t
  }

  /** A cue's text reads back, line by line, as its number, its time
      range, its text and the blank line that ends it. */
  lemma CueTextLines(c: Cue)
    requires OneLine(c.start) && OneLine(c.end) && OneLine(c.body)
    ensures Split(CueText(c), "\n") == [NatToString(c.id), c.start + " --> " + c.end, c.body, "", ""]
  {
    var n := NatToString(c.id);
    var range := c.start + " --> " + c.end;
    DigitsOneLine(n);
    RangeOneLine(c.start, c.end);
    CueTextParts(c);
    ThreeLines(n, range, c.body);
  }

  lemma DigitsOneLine(n: string)
    requires forall i :: 0 <= i < |n| ==> IsDigit(n[i])
    ensures OneLine(n)
  {
    forall i | 0 <= i < |n| ensures n[i] != '\n' { assert IsDigit(n[i]); }
  }

  lemma RangeOneLine(a: string, b: string)
    requires OneLine(a) && OneLine(b)
    ensures OneLine(a + " --> " + b)
  {
    var s := a + " --> " + b;
    forall i | 0 <= i < |s| ensures s[i] != '\n' {
      if i < |a| {
        assert s[i] == a[i];
      } else if i >= |a| + 5 {
        assert s[i] == b[i - |a| - 5];
      }
    }
  }

  lemma CueTextParts(c: Cue)
    ensures CueText(c) == NatToString(c.id) + "\n" + (c.start + " --> " + c.end + "\n" + (c.body + "\n" + "\n"))
  {
  }

  lemma ThreeLines(x: string, y: string, z: string)
    requires OneLine(x) && OneLine(y) && OneLine(z)
    ensures Split(x + "\n" + (y + "\n" + (z + "\n" + "\n")), "\n") == [x, y, z, "", ""]
  {
    NewlineSplit();
    var s3 := z + "\n" + "\n";
    SplitLine(z, "\n");
    assert Split(s3, "\n") == [z, "", ""];
    var s2 := y + "\n" + s3;
    SplitLine(y, s3);
    assert Split(s2, "\n") == [y, z, "", ""];
    SplitLine(x, s2);
  }


  /** The cues' texts concatenated in order. */
  function Render(cues: seq<Cue>): (r: string)
    ensures cues == [] <==> r == []
    ensures cues != [] ==> EndsWith(r, "\n\n")
    decreases |cues|
  {
    if cues == [] then ""
    else
      var first := CueText(cues[0]);
      var rest := Render(cues[1..]);
      var r := first + rest;
      assert rest != [] ==> r[|r| - 2..] == rest[|rest| - 2..];
      assert rest == [] ==> r == first;
      r
  }

  /** Rendering a concatenation renders each part: the cue texts follow
      one another with nothing between them. */
  lemma {:induction false} RenderAppend(a: seq<Cue>, b: seq<Cue>)
    ensures Render(a + b) == Render(a) + Render(b)
    decreases |a|
  {
    if a == [] {
      assert a + b == b;
    } else {
      var c, rest := a[0], a[1..];
      assert a + b == [c] + (rest + b) && a == [c] + rest;
      RenderCons(c, rest + b);
      RenderAppend(rest, b);
      RenderCons(c, rest);
      Reassociate(CueText(c), Render(rest), Render(b));
    }
  }

  lemma Reassociate(x: string, y: string, z: string)
    ensures x + (y + z) == x + y + z
  {
  }

  /** The first cue's text comes first. */
  lemma RenderCons(c: Cue, cues: seq<Cue>)
    ensures Render([c] + cues) == CueText(c) + Render(cues)
  {
    assert ([c] + cues)[1..] == cues;
  }

  /** `Transcript(txt).as_srt()`. */
  method AsSrt(txt: string) returns (r: Result<string>)
    ensures ParseEach(Blocks(txt), ParseBlock).Fail? ==> r == Fail(ParseEach(Blocks(txt), ParseBlock).error)
    ensures ParseEach(Blocks(txt), ParseBlock).Ok? ==>
              var clips := ParseEach(Blocks(txt), ParseBlock).value;
              r == Ok(Render(seq(|clips|, k requires 0 <= k < |clips| =>
                                   Cue(k, clips[k].start, FinalEnd(clips, k), clips[k].body))))
  {
    match ParseEach(Blocks(txt), ParseBlock)
    case Fail(e) => r := Fail(e);
    case Ok(clips) =>
      var cues := Ripple(clips);
      assert cues == seq(|clips|, k requires 0 <= k < |clips| =>
                           Cue(k, clips[k].start, FinalEnd(clips, k), clips[k].body));
      r := Ok(Render(cues));
  }

  /** An empty transcript is one block without a stamp. */
  lemma EmptyTranscriptFails()
    ensures ParseEach(Blocks(""), ParseBlock) == Fail(NoTimestamp(""))
  {
    assert Blocks("") == [""];
    assert FirstStamp("", 0).None?;
  }

  /** Each cue but the last ends where the next one starts; the last one
      ends where the one before it starts. */
  lemma CueEnds(clips: seq<Clip>, k: nat)
    requires k < |clips|
    ensures k + 1 < |clips| ==> FinalEnd(clips, k) == clips[k + 1].start
    ensures |clips| >= 2 && k == |clips| - 1 ==> FinalEnd(clips, k) == clips[k - 1].start
    ensures |clips| == 1 ==> FinalEnd(clips, k) == "00:00:00"
  {
  }
}
