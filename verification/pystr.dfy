/** ASCII models of the Python string primitives that every tool in the
    repository is built from: character classes, case mapping, `strip`,
    `split`/`join`, `str.replace` and `re.sub` over a literal pattern (with
    its optional `count`), run-collapsing substitutions such as
    `re.sub(r'\s+', ' ', s)`, `capitalize` and `title`.

    Characters outside ASCII are never letters, digits or word characters
    here, and case mapping leaves them alone. */
module PyStr {
  import opened Results

  // ---------------------------------------------------------------------
  // Character classes
  // ---------------------------------------------------------------------

  /** Python's whitespace below 128: `\s` in a pattern, `str.isspace`. */
  predicate IsSpace(c: char) {
    c == ' ' || c == '\t' || c == '\n' || c == '\r' || c == '\U{0B}' || c == '\U{0C}'
    || '\U{1C}' <= c <= '\U{1F}'
  }

  predicate IsUpper(c: char) { 'A' <= c <= 'Z' }
  predicate IsLower(c: char) { 'a' <= c <= 'z' }
  predicate IsAlpha(c: char) { IsUpper(c) || IsLower(c) }
  predicate IsDigit(c: char) { '0' <= c <= '9' }
  predicate IsAlnum(c: char) { IsAlpha(c) || IsDigit(c) }

  /** `\w`: letters, digits and the underscore. */
  predicate IsWord(c: char) { IsAlnum(c) || c == '_' }

  function ToLower(c: char): char {
    if IsUpper(c) then (c as int + 32) as char else c
  }

  function ToUpper(c: char): char {
    if IsLower(c) then (c as int - 32) as char else c
  }

  predicate NoSpace(s: string) {
    forall i :: 0 <= i < |s| ==> !IsSpace(s[i])
  }

  // ---------------------------------------------------------------------
  // Case mapping: lower, capitalize, title
  // ---------------------------------------------------------------------

  function Lower(s: string): (r: string)
    ensures |r| == |s|
    ensures forall i :: 0 <= i < |s| ==> r[i] == ToLower(s[i])
  {
    seq(|s|, i requires 0 <= i < |s| => ToLower(s[i]))
  }

  /** `str.capitalize`: the first character upper-cased, the rest lower-cased. */
  function Capitalize(s: string): (r: string)
    ensures |r| == |s|
    ensures |s| > 0 ==> r[0] == ToUpper(s[0])
    ensures forall i :: 0 < i < |s| ==> r[i] == ToLower(s[i])
  {
    if s == [] then [] else [ToUpper(s[0])] + Lower(s[1..])
  }

  /** `str.title`: a letter is upper-cased exactly when the character before
      it is not a letter, and lower-cased otherwise; other characters stay. */
  function Title(s: string): (r: string)
    ensures |r| == |s|
    ensures forall i :: 0 <= i < |s| ==> (IsAlpha(r[i]) <==> IsAlpha(s[i]))
    ensures forall i :: 0 <= i < |s| && !IsAlpha(s[i]) ==> r[i] == s[i]
    ensures forall i :: 0 <= i < |s| && IsAlpha(s[i]) ==>
              ToLower(r[i]) == ToLower(s[i]) && (IsUpper(r[i]) <==> (i == 0 || !IsAlpha(s[i - 1])))
  {
    TitleAfter(s, false)
  }

  function TitleAfter(s: string, afterLetter: bool): (r: string)
    ensures |r| == |s|
    ensures forall i :: 0 <= i < |s| ==> (IsAlpha(r[i]) <==> IsAlpha(s[i]))
    ensures forall i :: 0 <= i < |s| && !IsAlpha(s[i]) ==> r[i] == s[i]
    ensures forall i :: 0 <= i < |s| && IsAlpha(s[i]) ==>
              ToLower(r[i]) == ToLower(s[i])
              && (IsUpper(r[i]) <==> (if i == 0 then !afterLetter else !IsAlpha(s[i - 1])))
    decreases |s|
  {
    if s == [] then []
    else
      var c := if !IsAlpha(s[0]) then s[0] else if afterLetter then ToLower(s[0]) else ToUpper(s[0]);
      [c] + TitleAfter(s[1..], IsAlpha(s[0]))
  }

  // ---------------------------------------------------------------------
  // Prefixes, occurrences, search
  // ---------------------------------------------------------------------

  predicate StartsWith(s: string, p: string) {
    |p| <= |s| && s[..|p|] == p
  }

  predicate EndsWith(s: string, p: string) {
    |p| <= |s| && s[|s| - |p|..] == p
  }

  /** Case-insensitive prefix test against a lower-case pattern (`re.I`). */
  predicate CiStartsWith(s: string, p: string) {
    |p| <= |s| && Lower(s[..|p|]) == p
  }

  predicate OccursAt(s: string, pat: string, i: nat) {
    i + |pat| <= |s| && s[i..i + |pat|] == pat
  }

  /** `pat in s`. */
  predicate Contains(s: string, pat: string) {
    Find(s, pat).Some?
  }

  /** `s.find(pat)`, as an option: the leftmost occurrence. */
  function Find(s: string, pat: string): (r: Option<nat>)
    ensures r.Some? ==> OccursAt(s, pat, r.value)
    ensures r.Some? ==> forall j: nat :: j < r.value ==> !OccursAt(s, pat, j)
    ensures r.None? ==> forall j: nat :: !OccursAt(s, pat, j)
  {
    FindFrom(s, pat, 0)
  }

  function FindFrom(s: string, pat: string, from: nat): (r: Option<nat>)
    ensures r.Some? ==> from <= r.value && OccursAt(s, pat, r.value)
    ensures r.Some? ==> forall j: nat :: from <= j < r.value ==> !OccursAt(s, pat, j)
    ensures r.None? ==> forall j: nat :: from <= j ==> !OccursAt(s, pat, j)
    decreases |s| - from
  {
    if from + |pat| > |s| then None
    else if OccursAt(s, pat, from) then Some(from)
    else FindFrom(s, pat, from + 1)
  }

  /** The first index at or after `from` whose character satisfies `stop`,
      or `|s|`: the end of a greedy run of characters outside `stop`. */
  function RunEnd(s: string, from: nat, stop: char -> bool): (e: nat)
    requires from <= |s|
    ensures from <= e <= |s|
    ensures forall j :: from <= j < e ==> !stop(s[j])
    ensures e < |s| ==> stop(s[e])
    decreases |s| - from
  {
    if from == |s| || stop(s[from]) then from else RunEnd(s, from + 1, stop)
  }

  /** A run is determined by where it stops. */
  lemma RunEndAt(s: string, from: nat, stop: char -> bool, e: nat)
    requires from <= e <= |s|
    requires forall j :: from <= j < e ==> !stop(s[j])
    requires e < |s| ==> stop(s[e])
    ensures RunEnd(s, from, stop) == e
  {
  }

  // ---------------------------------------------------------------------
  // strip
  // ---------------------------------------------------------------------

  function LStrip(s: string): (r: string)
    ensures |r| <= |s| && r == s[|s| - |r|..]
    ensures forall i :: 0 <= i < |s| - |r| ==> IsSpace(s[i])
    ensures r == [] || !IsSpace(r[0])
    decreases |s|
  {
    if |s| > 0 && IsSpace(s[0]) then LStrip(s[1..]) else s
  }

  function RStrip(s: string): (r: string)
    ensures |r| <= |s| && r == s[..|r|]
    ensures forall i :: |r| <= i < |s| ==> IsSpace(s[i])
    ensures r == [] || !IsSpace(r[|r| - 1])
    decreases |s|
  {
    if |s| > 0 && IsSpace(s[|s| - 1]) then RStrip(s[..|s| - 1]) else s
  }

  /** `str.strip()`: the infix left once the whitespace at both ends is
      cut off; nothing but whitespace is cut, and the infix neither starts
      nor ends with whitespace. */
  function Strip(s: string): (r: string)
    ensures |r| <= |LStrip(s)| <= |s|
    ensures r == [] || (!IsSpace(r[0]) && !IsSpace(r[|r| - 1]))
    ensures LStrip(s)[..|r|] == r
    ensures forall i :: 0 <= i < |s| - |LStrip(s)| ==> IsSpace(s[i])
    ensures forall i :: |s| - |LStrip(s)| + |r| <= i < |s| ==> IsSpace(s[i])
  {
    var l := LStrip(s);
    var r := RStrip(l);
    StripParts(s, l, r);
    r
  }

  /** The two cuts of `strip()` seen from the whole string. */
  lemma StripParts(s: string, l: string, r: string)
    requires |l| <= |s| && l == s[|s| - |l|..]
    requires |r| <= |l| && r == l[..|r|]
    requires forall i :: |r| <= i < |l| ==> IsSpace(l[i])
    requires l == [] || !IsSpace(l[0])
    requires r == [] || !IsSpace(r[|r| - 1])
    ensures r == [] || (!IsSpace(r[0]) && !IsSpace(r[|r| - 1]))
    ensures r == s[|s| - |l|..|s| - |l| + |r|]
    ensures forall i :: |s| - |l| + |r| <= i < |s| ==> IsSpace(s[i])
  {
    var k := |s| - |l|;
    forall i | k + |r| <= i < |s| ensures IsSpace(s[i]) {
      assert s[i] == l[i - k];
    }
  }

  /** Any cut of `s` into whitespace, an infix that neither starts nor
      ends with whitespace, and whitespace, is the one `strip()` makes. */
  /** A character of the stripped text is the one behind the leading
      whitespace. */
  lemma StripAt(s: string, i: nat)
    requires i < |Strip(s)|
    ensures Strip(s)[i] == s[|s| - |LStrip(s)| + i]
  {
    var l := LStrip(s);
    assert Strip(s)[i] == l[..|Strip(s)|][i] == l[i];
  }

  lemma StripCharacterised(s: string, i: nat, j: nat)
    requires i <= j <= |s|
    requires forall k :: 0 <= k < i ==> IsSpace(s[k])
    requires forall k :: j <= k < |s| ==> IsSpace(s[k])
    requires i == j || (!IsSpace(s[i]) && !IsSpace(s[j - 1]))
    ensures Strip(s) == s[i..j]
  {
    if i == j {
      LStripAt(s, |s|);
      assert LStrip(s) == [];
    } else {
      LStripAt(s, i);
      StripTail(s, i, j);
    }
  }

  lemma StripTail(s: string, i: nat, j: nat)
    requires i < j <= |s|
    requires forall k :: j <= k < |s| ==> IsSpace(s[k])
    requires !IsSpace(s[j - 1])
    ensures RStrip(s[i..]) == s[i..j]
  {
    var l := s[i..];
    forall k | j - i <= k < |l| ensures IsSpace(l[k]) {
      assert l[k] == s[i + k];
    }
    RStripAt(l, j - i);
  }

  /** `lstrip()` cuts exactly a whitespace prefix that stops at a
      non-space. */
  lemma LStripAt(s: string, i: nat)
    requires i <= |s|
    requires forall k :: 0 <= k < i ==> IsSpace(s[k])
    requires i == |s| || !IsSpace(s[i])
    ensures LStrip(s) == s[i..]
  {
    if i > 0 {
      LStripAt(s[1..], i - 1);
    }
  }

  /** `rstrip()` cuts exactly a whitespace suffix that follows a
      non-space. */
  lemma RStripAt(s: string, j: nat)
    requires j <= |s|
    requires forall k :: j <= k < |s| ==> IsSpace(s[k])
    requires j == 0 || !IsSpace(s[j - 1])
    ensures RStrip(s) == s[..j]
  {
  }

  /** `s.rstrip(c)` for one character `c`. */
  function RStripChar(s: string, c: char): (r: string)
    ensures |r| <= |s| && r == s[..|r|]
    ensures forall i :: |r| <= i < |s| ==> s[i] == c
    ensures r == [] || r[|r| - 1] != c
    decreases |s|
  {
    if |s| > 0 && s[|s| - 1] == c then RStripChar(s[..|s| - 1], c) else s
  }

  /** `s.lstrip(c)` for one character `c`. */
  function LStripChar(s: string, c: char): (r: string)
    ensures |r| <= |s| && r == s[|s| - |r|..]
    ensures forall i :: 0 <= i < |s| - |r| ==> s[i] == c
    ensures r == [] || r[0] != c
    decreases |s|
  {
    if |s| > 0 && s[0] == c then LStripChar(s[1..], c) else s
  }

  /** Stripping changes nothing when neither end is whitespace. */
  lemma StripNoop(s: string)
    requires s == [] || (!IsSpace(s[0]) && !IsSpace(s[|s| - 1]))
    ensures Strip(s) == s
  {
  }

  lemma StripIdempotent(s: string)
    ensures Strip(Strip(s)) == Strip(s)
  {
    StripNoop(Strip(s));
  }

  /** One leading space is all `strip()` removes from `" " + w`. */
  lemma StripLeadingSpace(w: string)
    requires w != [] && !IsSpace(w[0]) && !IsSpace(w[|w| - 1])
    ensures Strip([' '] + w) == w
  {
    assert ([' '] + w)[1..] == w;
    assert LStrip([' '] + w) == w;
  }

  lemma StripKeepsNoSpace(s: string)
    requires NoSpace(s)
    ensures Strip(s) == s
  {
  }

  /** `strip()` keeps a slice, so single spacing survives it. */
  lemma StripKeepsSpacing(s: string)
    requires NoDoubleSpace(s)
    requires forall i :: 0 <= i < |s| && IsSpace(s[i]) ==> s[i] == ' '
    ensures NoDoubleSpace(Strip(s))
    ensures forall i :: 0 <= i < |Strip(s)| && IsSpace(Strip(s)[i]) ==> Strip(s)[i] == ' '
  {
    var r := Strip(s);
    var k := |s| - |LStrip(s)|;
    assert r == s[k..k + |r|];
    forall i, j | 0 <= i < j < |r| && j == i + 1 ensures !(r[i] == ' ' && r[j] == ' ') {
      assert r[i] == s[k + i] && r[j] == s[k + j];
    }
    forall i | 0 <= i < |r| && IsSpace(r[i]) ensures r[i] == ' ' {
      assert r[i] == s[k + i];
    }
  }

  lemma NoSpaceSlice(s: string, i: nat, j: nat)
    requires NoSpace(s) && i <= j <= |s|
    ensures NoSpace(s[i..j])
  {
    assert forall k :: 0 <= k < j - i ==> s[i..j][k] == s[i + k];
  }

  // ---------------------------------------------------------------------
  // split and join
  // ---------------------------------------------------------------------

  /** `s.split(sep)` for a non-empty separator: cut at every leftmost,
      non-overlapping occurrence. */
  function Split(s: string, sep: string): (parts: seq<string>)
    requires |sep| > 0
    ensures |parts| >= 1
    decreases |s|
  {
    match Find(s, sep)
    case None => [s]
    case Some(i) => [s[..i]] + Split(s[i + |sep|..], sep)
  }

  /** No piece of a split holds the separator. */
  lemma {:induction false} SplitPiecesLackSeparator(s: string, sep: string)
    requires |sep| > 0
    ensures forall i :: 0 <= i < |Split(s, sep)| ==> !Contains(Split(s, sep)[i], sep)
    decreases |s|
  {
    match Find(s, sep)
    case None =>
    case Some(i) =>
      NoEarlierOccurrence(s, sep, i);
      SplitPiecesLackSeparator(s[i + |sep|..], sep);
  }

  lemma NoEarlierOccurrence(s: string, sep: string, i: nat)
    requires |sep| > 0 && i <= |s|
    requires forall j: nat :: j < i ==> !OccursAt(s, sep, j)
    ensures !Contains(s[..i], sep)
  {
    forall j: nat | j <= i
      ensures !OccursAt(s[..i], sep, j)
    {
      if OccursAt(s[..i], sep, j) {
        assert s[..i][j..j + |sep|] == s[j..j + |sep|];
        assert OccursAt(s, sep, j);
      }
    }
  }

  /** `sep.join(parts)`. */
  function Join(parts: seq<string>, sep: string): string
    decreases |parts|
  {
    if |parts| == 0 then ""
    else if |parts| == 1 then parts[0]
    else parts[0] + sep + Join(parts[1..], sep)
  }

  lemma JoinCons(parts: seq<string>, sep: string)
    requires |parts| >= 2
    ensures Join(parts, sep) == parts[0] + (sep + Join(parts[1..], sep))
  {
  }

  function Last<T>(xs: seq<T>): T
    requires |xs| > 0
  {
    xs[|xs| - 1]
  }

  /** Joining the pieces of a split with the same separator gives the
      string back. */
  lemma {:induction false} JoinSplit(s: string, sep: string)
    requires |sep| > 0
    ensures Join(Split(s, sep), sep) == s
    decreases |s|
  {
    var f := Find(s, sep);
    if f.Some? {
      var i := f.value;
      var rest := s[i + |sep|..];
      var tail := Split(rest, sep);
      JoinSplit(rest, sep);
      var parts := [s[..i]] + tail;
      assert Split(s, sep) == parts;
      assert parts[1..] == tail;
      assert Join(parts, sep) == s[..i] + sep + Join(tail, sep);
      assert s == s[..i] + sep + rest;
    }
  }

  /** Splitting a join of pieces that do not contain a one-character
      separator gives the pieces back. */
  lemma {:induction false} SplitJoin(parts: seq<string>, sep: string)
    requires |sep| == 1 && |parts| >= 1
    requires forall i :: 0 <= i < |parts| ==> !Contains(parts[i], sep)
    ensures Split(Join(parts, sep), sep) == parts
    decreases |parts|
  {
    if |parts| == 1 {
      assert Find(parts[0], sep).None?;
    } else {
      var p0 := parts[0];
      var rest := Join(parts[1..], sep);
      var s := p0 + sep + rest;
      assert s == Join(parts, sep);
      FindBeforeSeparator(p0, rest, sep);
      assert Find(s, sep) == Some(|p0|);
      assert s[..|p0|] == p0;
      assert s[|p0| + |sep|..] == rest;
      SplitJoin(parts[1..], sep);
    }
  }

  /** The pieces after the first, joined back, are the text after the
      first separator (empty when there is none). */
  /** The first piece of a split is the text before the first separator. */
  lemma SplitHead(s: string, sep: string)
    requires |sep| > 0
    ensures Find(s, sep).None? ==> Split(s, sep)[0] == s
    ensures Find(s, sep).Some? ==> Split(s, sep)[0] == s[..Find(s, sep).value]
  {
  }

  lemma SplitTail(s: string, sep: string)
    requires |sep| > 0
    ensures Find(s, sep).None? ==> Join(Split(s, sep)[1..], sep) == ""
    ensures Find(s, sep).Some? ==>
              Join(Split(s, sep)[1..], sep) == s[Find(s, sep).value + |sep|..]
  {
    if Find(s, sep).Some? {
      var i := Find(s, sep).value;
      assert Split(s, sep)[1..] == Split(s[i + |sep|..], sep);
      JoinSplit(s[i + |sep|..], sep);
    }
  }

  /** The last piece of a split behind a final separator is the text
      after it, when that text holds no separator. */
  lemma SplitLastAfter(a: string, w: string, sep: string)
    requires |sep| == 1 && !Contains(w, sep)
    ensures Last(Split(a + sep + w, sep)) == w
  {
    SplitAppend(a, w, sep);
    assert Split(w, sep) == [w];
  }

  /** Joining one more piece appends the separator and the piece. */
  lemma {:induction false} JoinSnoc(parts: seq<string>, p: string, sep: string)
    requires |parts| >= 1
    ensures Join(parts + [p], sep) == Join(parts, sep) + sep + p
    decreases |parts|
  {
    if |parts| > 1 {
      assert (parts + [p])[1..] == parts[1..] + [p];
      JoinSnoc(parts[1..], p, sep);
    } else {
      assert (parts + [p])[1..] == [p];
    }
  }

  /** The first one-character separator of `a + sep + w` is the first of
      `a`, or the one after `a`. */
  lemma FindBeforeSeparator(a: string, w: string, sep: string)
    requires |sep| == 1
    ensures Find(a + sep + w, sep) == if Find(a, sep).Some? then Find(a, sep) else Some(|a|)
  {
    var s := a + sep + w;
    assert OccursAt(s, sep, |a|) by { assert s[|a|..|a| + 1] == sep; }
    var i := Find(s, sep).value;
    forall j: nat | j + 1 <= |a| ensures OccursAt(a, sep, j) == OccursAt(s, sep, j) {
      assert a[j..j + 1] == s[j..j + 1];
    }
  }

  /** Splitting at a one-character separator splits both sides of one of
      its occurrences independently. */
  lemma {:induction false} SplitAppend(a: string, w: string, sep: string)
    requires |sep| == 1
    ensures Split(a + sep + w, sep) == Split(a, sep) + Split(w, sep)
    decreases |a|
  {
    var s := a + sep + w;
    FindBeforeSeparator(a, w, sep);
    match Find(a, sep)
    case Some(i) =>
      assert s[i + 1..] == a[i + 1..] + sep + w;
      SplitAppend(a[i + 1..], w, sep);
      assert s[..i] == a[..i];
    case None =>
      assert s[..|a|] == a && s[|a| + 1..] == w;
  }

  /** The last piece of a split is the whole string when there is one
      piece, and follows the last separator otherwise. */
  lemma {:induction false} SplitLastBehind(s: string, sep: string)
    requires |sep| > 0
    ensures |Split(s, sep)| == 1 ==> Last(Split(s, sep)) == s
    ensures |Split(s, sep)| >= 2 ==> EndsWith(s, sep + Last(Split(s, sep)))
    decreases |s|
  {
    var f := Find(s, sep);
    if f.Some? {
      var i := f.value;
      var rest := s[i + |sep|..];
      var tail := Split(rest, sep);
      SplitCut(s, sep, i);
      LastCons(s[..i], tail);
      SplitLastBehind(rest, sep);
      var l := Last(tail);
      if |tail| == 1 {
        assert s[i..i + |sep|] == sep;
        assert s[|s| - |sep + l|..] == s[i..i + |sep|] + rest;
      } else {
        assert rest[|rest| - |sep + l|..] == s[|s| - |sep + l|..];
      }
    }
  }

  /** A field followed by the separator, where the separator does not
      start inside the field, is the first piece of the split. */
  lemma SplitFirstField(a: string, rest: string, sep: string)
    requires |sep| > 0
    requires forall j :: 0 <= j < |a| ==> !OccursAt(a + sep, sep, j)
    ensures Split(a + sep + rest, sep) == [a] + Split(rest, sep)
  {
    var t := a + sep;
    var s := t + rest;
    assert s[|a|..|a| + |sep|] == sep;
    assert OccursAt(s, sep, |a|);
    forall j: nat | j < |a| ensures !OccursAt(s, sep, j) {
      assert j + |sep| <= |t|;
      assert s[j..j + |sep|] == t[j..j + |sep|];
      assert !OccursAt(t, sep, j);
    }
    assert Find(s, sep) == Some(|a|);
    assert s[..|a|] == a && s[|a| + |sep|..] == rest;
  }

  /** A text without a newline. */
  predicate OneLine(s: string) {
    forall i :: 0 <= i < |s| ==> s[i] != '\n'
  }

  /** A line without a newline is the first piece of a split at newlines. */
  lemma SplitLine(a: string, rest: string)
    requires OneLine(a)
    ensures Split(a + "\n" + rest, "\n") == [a] + Split(rest, "\n")
  {
    forall j | 0 <= j < |a| ensures !OccursAt(a + "\n", "\n", j) {
      assert (a + "\n")[j] == a[j];
    }
    SplitFirstField(a, rest, "\n");
  }

  /** A lone newline splits into two empty lines. */
  lemma NewlineSplit()
    ensures Split("\n", "\n") == ["", ""]
  {
    assert Find("\n", "\n") == Some(0);
    assert "\n"[1..] == [];
  }

  /** A separator that starts with whitespace cannot start inside a field
      without whitespace. */
  lemma NoSpaceSeparated(a: string, sep: string)
    requires NoSpace(a) && |sep| > 0 && IsSpace(sep[0])
    ensures forall j :: 0 <= j < |a| ==> !OccursAt(a + sep, sep, j)
  {
    forall j | 0 <= j < |a| ensures !OccursAt(a + sep, sep, j) {
      assert (a + sep)[j] == a[j];
    }
  }

  /** Two strings that agree up to `e` agree on every slice below `e`. */
  lemma SamePrefixSlice(s: string, t: string, e: nat, i: nat, j: nat)
    requires i <= j <= e <= |s| && e <= |t| && s[..e] == t[..e]
    ensures s[i..j] == t[i..j]
  {
    forall k | i <= k < j ensures s[k] == t[k] {
      assert s[k] == s[..e][k] && t[k] == t[..e][k];
    }
  }

  /** A string contains `[c]` only if `c` is one of its characters. */
  lemma ContainsChar(s: string, c: char)
    ensures Contains(s, [c]) ==> c in s
  {
    if Contains(s, [c]) {
      var i := Find(s, [c]).value;
      assert s[i..i + 1][0] == s[i];
    }
  }

  /** Conversely, each character of a string is contained in it. */
  lemma CharContained(s: string, c: char)
    ensures c in s ==> Contains(s, [c])
  {
    if c in s {
      var i :| 0 <= i < |s| && s[i] == c;
      assert OccursAt(s, [c], i) by { assert s[i..i + 1] == [c]; }
    }
  }

  /** The pieces of a split are made of the string's characters. */
  lemma {:induction false} SplitPieceChars(s: string, sep: string, k: nat, c: char)
    requires |sep| > 0 && k < |Split(s, sep)|
    ensures c in Split(s, sep)[k] ==> c in s
    decreases |s|
  {
    match Find(s, sep)
    case None =>
    case Some(i) =>
      var rest := s[i + |sep|..];
      if k > 0 {
        SplitPieceChars(rest, sep, k - 1, c);
        assert c in rest ==> c in s;
      } else {
        assert c in s[..i] ==> c in s;
      }
  }

  /** `strip()` keeps a slice, so it adds no characters. */
  lemma StripChars(s: string, c: char)
    ensures c in Strip(s) ==> c in s
  {
    var l := LStrip(s);
    SliceChars(l, 0, |Strip(s)|, c);
    SliceChars(s, |s| - |l|, |s|, c);
  }

  /** A slice holds no character its string does not. */
  lemma SliceChars(s: string, i: nat, j: nat, c: char)
    requires i <= j <= |s|
    ensures c in s[i..j] ==> c in s
  {
    if c in s[i..j] {
      var k :| 0 <= k < j - i && s[i..j][k] == c;
      assert s[i + k] == c;
    }
  }

  /** The ends of a join of non-empty pieces are the ends of its first
      and last piece. */
  lemma {:induction false} JoinEnds(parts: seq<string>, sep: string)
    requires |parts| >= 1 && forall k :: 0 <= k < |parts| ==> parts[k] != []
    ensures |Join(parts, sep)| > 0
    ensures Join(parts, sep)[0] == parts[0][0]
    ensures Join(parts, sep)[|Join(parts, sep)| - 1] == Last(parts)[|Last(parts)| - 1]
    decreases |parts|
  {
    if |parts| > 1 {
      JoinEnds(parts[1..], sep);
      assert Last(parts[1..]) == Last(parts);
    }
  }

  /** The last piece of a split is a suffix of the string. */
  lemma {:induction false} SplitLastIsSuffix(s: string, sep: string)
    requires |sep| > 0
    ensures EndsWith(s, Last(Split(s, sep)))
    decreases |s|
  {
    var f := Find(s, sep);
    if f.Some? {
      var m := f.value + |sep|;
      SplitLastStep(s, sep, f.value);
      SplitLastIsSuffix(s[m..], sep);
      SuffixOfDrop(s, m, Last(Split(s[m..], sep)));
    }
  }

  /** After a cut, the last piece is the last piece of what follows it. */
  lemma SplitLastStep(s: string, sep: string, i: nat)
    requires |sep| > 0 && Find(s, sep) == Some(i)
    ensures i + |sep| <= |s|
    ensures Last(Split(s, sep)) == Last(Split(s[i + |sep|..], sep))
  {
    SplitCut(s, sep, i);
    LastCons(s[..i], Split(s[i + |sep|..], sep));
  }

  /** The first cut of a split. */
  lemma SplitCut(s: string, sep: string, i: nat)
    requires |sep| > 0 && Find(s, sep) == Some(i)
    ensures i + |sep| <= |s|
    ensures Split(s, sep) == [s[..i]] + Split(s[i + |sep|..], sep)
  {
  }

  lemma LastCons<T>(x: T, xs: seq<T>)
    requires |xs| > 0
    ensures Last([x] + xs) == Last(xs)
  {
  }

  /** A suffix of a suffix of `s` is a suffix of `s`. */
  lemma SuffixOfDrop(s: string, m: nat, t: string)
    requires m <= |s| && EndsWith(s[m..], t)
    ensures EndsWith(s, t)
  {
    assert s[m..][|s| - m - |t|..] == s[|s| - |t|..];
  }

  lemma SuffixIsContained(s: string, t: string)
    requires EndsWith(s, t)
    ensures Contains(s, t)
  {
    assert OccursAt(s, t, |s| - |t|);
  }

  // ---------------------------------------------------------------------
  // Literal substitution: str.replace and re.sub(pattern, repl, s, count)
  // ---------------------------------------------------------------------

  /** The `count` argument of `re.sub`: `0` means every occurrence. */
  datatype Count = All | AtMost(n: nat) {
    function Spend(): Count {
      match this
      case All => All
      case AtMost(n) => if n == 0 then AtMost(0) else AtMost(n - 1)
    }
  }

  /** Replace leftmost, non-overlapping occurrences of the non-empty literal
      `pat` by `rep`, at most `count` of them, scanning left to right and
      never re-scanning replaced text. */
  function Sub(s: string, pat: string, rep: string, count: Count): string
    requires |pat| > 0
    decreases |s|
  {
    if count == AtMost(0) then s
    else match Find(s, pat)
      case None => s
      case Some(i) => s[..i] + rep + Sub(s[i + |pat|..], pat, rep, count.Spend())
  }

  /** Replacing every occurrence is splitting at the pattern and joining
      the pieces with the replacement. */
  lemma {:induction false} SubAllJoinsSplit(s: string, pat: string, rep: string)
    requires |pat| > 0
    ensures Sub(s, pat, rep, All) == Join(Split(s, pat), rep)
    decreases |s|
  {
    match Find(s, pat)
    case None =>
    case Some(i) =>
      var rest := s[i + |pat|..];
      var tail := Split(rest, pat);
      SubAllJoinsSplit(rest, pat, rep);
      var parts := [s[..i]] + tail;
      assert Split(s, pat) == parts;
      assert parts[1..] == tail;
      assert Join(parts, rep) == s[..i] + rep + Join(tail, rep);
  }

  /** A property every character of the input and of the replacement
      text has, every character of the result has. */
  lemma {:induction false} SubKeeps(s: string, pat: string, rep: string, count: Count, p: char -> bool)
    requires |pat| > 0
    requires forall i :: 0 <= i < |s| ==> p(s[i])
    requires forall i :: 0 <= i < |rep| ==> p(rep[i])
    ensures forall i :: 0 <= i < |Sub(s, pat, rep, count)| ==> p(Sub(s, pat, rep, count)[i])
    decreases |s|
  {
    if count != AtMost(0) && Find(s, pat).Some? {
      var i := Find(s, pat).value;
      var rest := s[i + |pat|..];
      SubKeeps(rest, pat, rep, count.Spend(), p);
      var t := Sub(rest, pat, rep, count.Spend());
      var r := s[..i] + rep + t;
      assert Sub(s, pat, rep, count) == r;
      forall k | 0 <= k < |r| ensures p(r[k]) {
        if k < i {
          assert r[k] == s[k];
        } else if k < i + |rep| {
          assert r[k] == rep[k - i];
        } else {
          assert r[k] == t[k - i - |rep|];
        }
      }
    }
  }

  /** `s.replace(old, new)`. */
  function Replace(s: string, target: string, repl: string): string
    requires |target| > 0
  {
    Sub(s, target, repl, All)
  }

  /** Every character of a substitution's result comes from the input or
      from the replacement text. */
  lemma {:induction false} SubChars(s: string, pat: string, rep: string, count: Count, c: char)
    requires |pat| > 0 && c !in s && c !in rep
    ensures c !in Sub(s, pat, rep, count)
    decreases |s|
  {
    if count != AtMost(0) && Find(s, pat).Some? {
      var i := Find(s, pat).value;
      var rest := s[i + |pat|..];
      SubChars(rest, pat, rep, count.Spend(), c);
      SliceChars(s, 0, i, c);
      AbsentFromJoin3(s[..i], rep, Sub(rest, pat, rep, count.Spend()), c);
    }
  }

  lemma AbsentFromJoin3(a: string, b: string, d: string, c: char)
    requires c !in a && c !in b && c !in d
    ensures c !in a + b + d
  {
  }

  /** Substituting a one-character pattern everywhere by a text that does
      not contain it leaves no occurrence of that character. */
  lemma {:induction false} SubAllRemovesChar(s: string, c: char, rep: string)
    requires c !in rep
    ensures c !in Sub(s, [c], rep, All)
    decreases |s|
  {
    var f := Find(s, [c]);
    if f.None? {
      forall j | 0 <= j < |s| ensures s[j] != c {
        assert !OccursAt(s, [c], j);
        assert s[j..j + 1] == [s[j]];
      }
    } else {
      var i := f.value;
      forall j | 0 <= j < i ensures s[j] != c {
        assert !OccursAt(s, [c], j);
        assert s[j..j + 1] == [s[j]];
      }
      SubAllRemovesChar(s[i + 1..], c, rep);
    }
  }

  /** The number of leftmost, non-overlapping occurrences of `pat`. */
  function Occurrences(s: string, pat: string): nat
    requires |pat| > 0
    decreases |s|
  {
    match Find(s, pat)
    case None => 0
    case Some(i) => 1 + Occurrences(s[i + |pat|..], pat)
  }

  /** A text lacking one of the pattern's characters does not contain it. */
  lemma MissingCharNoMatch(s: string, pat: string, k: nat)
    requires k < |pat| && pat[k] !in s
    ensures !Contains(s, pat)
  {
  }

  /** The leftmost occurrence is the one `Find` reports. */
  lemma FindAt(s: string, pat: string, i: nat)
    requires OccursAt(s, pat, i) && forall j: nat :: j < i ==> !OccursAt(s, pat, j)
    ensures Find(s, pat) == Some(i)
  {
  }

  /** A mismatch at one position rules out an occurrence there. */
  lemma MismatchAt(s: string, pat: string, i: nat, k: nat)
    requires k < |pat| && i + k < |s| && s[i + k] != pat[k]
    ensures !OccursAt(s, pat, i)
  {
    if i + |pat| <= |s| {
      assert s[i..i + |pat|][k] == s[i + k];
    }
  }

  lemma SubNoMatch(s: string, pat: string, rep: string, count: Count)
    requires |pat| > 0 && !Contains(s, pat)
    ensures Sub(s, pat, rep, count) == s
  {
  }

  lemma ContainsAppend(a: string, b: string, pat: string)
    ensures Contains(b, pat) ==> Contains(a + b, pat)
  {
    if Contains(b, pat) {
      var i := Find(b, pat).value;
      assert (a + b)[|a| + i..|a| + i + |pat|] == b[i..i + |pat|];
      assert OccursAt(a + b, pat, |a| + i);
    }
  }

  lemma PrefixContains(s: string, p: string)
    ensures StartsWith(s, p) ==> Contains(s, p)
  {
    if StartsWith(s, p) {
      assert OccursAt(s, p, 0);
    }
  }

  /** With `count = n`, occurrences after the n-th are left in place: when
      `pat` occurs more than `n` times the result still contains it. */
  lemma {:induction false} SubBounded(s: string, pat: string, rep: string, n: nat)
    requires |pat| > 0 && Occurrences(s, pat) > n
    ensures Contains(Sub(s, pat, rep, AtMost(n)), pat)
    decreases n
  {
    var i := Find(s, pat).value;
    if n > 0 {
      var rest := s[i + |pat|..];
      SubBounded(rest, pat, rep, n - 1);
      ContainsAppend(s[..i] + rep, Sub(rest, pat, rep, AtMost(n - 1)), pat);
    }
  }

  /** A count at least the number of occurrences replaces them all. */
  lemma {:induction false} SubEnough(s: string, pat: string, rep: string, n: nat)
    requires |pat| > 0 && Occurrences(s, pat) <= n
    ensures Sub(s, pat, rep, AtMost(n)) == Sub(s, pat, rep, All)
    decreases |s|
  {
    match Find(s, pat)
    case None =>
    case Some(i) =>
      var rest := s[i + |pat|..];
      assert Occurrences(rest, pat) <= n - 1;
      SubEnough(rest, pat, rep, n - 1);
      assert AtMost(n).Spend() == AtMost(n - 1);
      assert Sub(s, pat, rep, AtMost(n)) == s[..i] + rep + Sub(rest, pat, rep, AtMost(n - 1));
      assert Sub(s, pat, rep, All) == s[..i] + rep + Sub(rest, pat, rep, All);
  }

  /** A replacement no longer than the pattern never lengthens the text. */
  lemma {:induction false} SubShrinks(s: string, pat: string, rep: string, count: Count)
    requires |pat| > 0 && |rep| <= |pat|
    ensures |Sub(s, pat, rep, count)| <= |s|
    decreases |s|
  {
    if count != AtMost(0) && Find(s, pat).Some? {
      var i := Find(s, pat).value;
      SubShrinks(s[i + |pat|..], pat, rep, count.Spend());
    }
  }

  // ---------------------------------------------------------------------
  // Character-class runs: re.sub(r'[set]+', rep, s) and re.sub(r'[^set]', '', s)
  // ---------------------------------------------------------------------

  function DropWhile(s: string, p: char -> bool): (r: string)
    ensures |r| <= |s| && r == s[|s| - |r|..]
    ensures forall i :: 0 <= i < |s| - |r| ==> p(s[i])
    ensures r == [] || !p(r[0])
    decreases |s|
  {
    if |s| > 0 && p(s[0]) then DropWhile(s[1..], p) else s
  }

  /** Dropping a prefix of characters satisfying `p` keeps the count of
      every character that does not. */
  lemma DropWhileCount(s: string, p: char -> bool, c: char)
    requires !p(c)
    ensures CountChar(DropWhile(s, p), c) == CountChar(s, c)
  {
    var r := DropWhile(s, p);
    var k := |s| - |r|;
    assert s == s[..k] + r;
    CountCharAppend(s[..k], r, c);
    forall i | 0 <= i < k ensures s[..k][i] != c {
      assert s[..k][i] == s[i];
    }
    CountCharAbsent(s[..k], c);
  }

  /** A run of characters satisfying `p` is dropped up to the first that
      does not. */
  lemma {:induction false} DropWhileRun(a: string, y: string, p: char -> bool)
    requires forall i :: 0 <= i < |a| ==> p(a[i])
    requires y == [] || !p(y[0])
    ensures DropWhile(a + y, p) == y
    decreases |a|
  {
    if a == [] {
      assert a + y == y;
    } else {
      assert (a + y)[1..] == a[1..] + y;
      DropWhileRun(a[1..], y, p);
    }
  }

  /** Every maximal run of characters satisfying `inRun` becomes one `rep`;
      every other character is kept, as often as it occurs. */
  function ReplaceRuns(s: string, inRun: char -> bool, rep: char): (r: string)
    ensures forall i :: 0 <= i < |r| && inRun(r[i]) ==> r[i] == rep
    ensures forall i, j :: 0 <= i < j < |r| && j == i + 1 && inRun(r[i]) ==> !inRun(r[j])
    ensures forall c {:trigger CountChar(r, c)} :: !inRun(c) && c != rep ==> CountChar(r, c) == CountChar(s, c)
    ensures |r| <= |s|
    ensures |s| > 0 ==> |r| > 0
    ensures |s| > 0 && !inRun(s[0]) ==> r[0] == s[0]
    decreases |s|
  {
    if s == [] then []
    else if inRun(s[0]) then
      var rest := DropWhile(s[1..], inRun);
      var t := ReplaceRuns(rest, inRun, rep);
      RunCollapsed(s, rest, t, inRun, rep);
      [rep] + t
    else
      var t := ReplaceRuns(s[1..], inRun, rep);
      CharCopied(s, t, inRun, rep);
      [s[0]] + t
  }

  /** The collapsing step for a run at the front: `t`, the collapsed text
      after the run, is prefixed by one `rep`. */
  lemma RunCollapsed(s: string, rest: string, t: string, inRun: char -> bool, rep: char)
    requires s != [] && inRun(s[0]) && rest == DropWhile(s[1..], inRun)
    requires forall i :: 0 <= i < |t| && inRun(t[i]) ==> t[i] == rep
    requires forall i, j :: 0 <= i < j < |t| && j == i + 1 && inRun(t[i]) ==> !inRun(t[j])
    requires forall c {:trigger CountChar(t, c)} :: !inRun(c) && c != rep ==> CountChar(t, c) == CountChar(rest, c)
    requires |t| <= |rest| && (|rest| > 0 ==> |t| > 0)
    requires |rest| > 0 && !inRun(rest[0]) ==> t[0] == rest[0]
    ensures var r := [rep] + t;
            (forall i :: 0 <= i < |r| && inRun(r[i]) ==> r[i] == rep)
            && (forall i, j :: 0 <= i < j < |r| && j == i + 1 && inRun(r[i]) ==> !inRun(r[j]))
            && (forall c {:trigger CountChar(r, c)} :: !inRun(c) && c != rep ==> CountChar(r, c) == CountChar(s, c))
            && |r| <= |s|
  {
    RunHeadAlone(rest, t, inRun, rep);
    forall c | !inRun(c) && c != rep ensures CountChar([rep] + t, c) == CountChar(s, c) {
      RunCount(s, rest, t, inRun, rep, c);
    }
  }

  /** One `rep` in front of a collapsed text that does not start inside a
      run keeps runs of length one. */
  lemma RunHeadAlone(rest: string, t: string, inRun: char -> bool, rep: char)
    requires rest == [] || !inRun(rest[0])
    requires forall i :: 0 <= i < |t| && inRun(t[i]) ==> t[i] == rep
    requires forall i, j :: 0 <= i < j < |t| && j == i + 1 && inRun(t[i]) ==> !inRun(t[j])
    requires |rest| == 0 ==> |t| == 0
    requires |rest| > 0 && !inRun(rest[0]) ==> |t| > 0 && t[0] == rest[0]
    ensures var r := [rep] + t;
            (forall i :: 0 <= i < |r| && inRun(r[i]) ==> r[i] == rep)
            && (forall i, j :: 0 <= i < j < |r| && j == i + 1 && inRun(r[i]) ==> !inRun(r[j]))
  {
    var r := [rep] + t;
    assert forall i :: 0 < i < |r| ==> r[i] == t[i - 1];
  }

  /** The count of a character outside the class survives the run. */
  lemma RunCount(s: string, rest: string, t: string, inRun: char -> bool, rep: char, c: char)
    requires s != [] && inRun(s[0]) && rest == DropWhile(s[1..], inRun)
    requires !inRun(c) && c != rep && CountChar(t, c) == CountChar(rest, c)
    ensures CountChar([rep] + t, c) == CountChar(s, c)
  {
    CountCharOther(rep, t, c);
    assert CountChar(s, c) == CountChar(s[1..], c);
    DropWhileCount(s[1..], inRun, c);
  }

  /** A leading character other than `c` does not count. */
  lemma CountCharOther(x: char, t: string, c: char)
    requires x != c
    ensures CountChar([x] + t, c) == CountChar(t, c)
  {
    assert ([x] + t)[1..] == t;
  }

  /** The collapsing step for a character outside the class: it is copied
      in front of `t`, the collapsed rest. */
  lemma CharCopied(s: string, t: string, inRun: char -> bool, rep: char)
    requires s != [] && !inRun(s[0])
    requires forall i :: 0 <= i < |t| && inRun(t[i]) ==> t[i] == rep
    requires forall i, j :: 0 <= i < j < |t| && j == i + 1 && inRun(t[i]) ==> !inRun(t[j])
    requires forall c {:trigger CountChar(t, c)} :: !inRun(c) && c != rep ==> CountChar(t, c) == CountChar(s[1..], c)
    requires |t| <= |s[1..]|
    ensures var r := [s[0]] + t;
            (forall i :: 0 <= i < |r| && inRun(r[i]) ==> r[i] == rep)
            && (forall i, j :: 0 <= i < j < |r| && j == i + 1 && inRun(r[i]) ==> !inRun(r[j]))
            && (forall c {:trigger CountChar(r, c)} :: !inRun(c) && c != rep ==> CountChar(r, c) == CountChar(s, c))
  {
    var r := [s[0]] + t;
    assert r[1..] == t;
  }

  /** The step that defines the collapsing: text outside the class is
      copied, then a whole run becomes one `rep`, and the rest is collapsed
      in turn. */
  lemma ReplaceRunsStep(x: string, run: string, y: string, inRun: char -> bool, rep: char)
    requires forall i :: 0 <= i < |x| ==> !inRun(x[i])
    requires run != [] && forall i :: 0 <= i < |run| ==> inRun(run[i])
    requires y == [] || !inRun(y[0])
    ensures ReplaceRuns(x + run + y, inRun, rep) == x + [rep] + ReplaceRuns(y, inRun, rep)
  {
    assert x + run + y == x + (run + y);
    ReplaceRunsOutside(x, run + y, inRun, rep);
    ReplaceRunsRun(run, y, inRun, rep);
  }

  /** A whole run becomes one `rep`. */
  lemma ReplaceRunsRun(run: string, y: string, inRun: char -> bool, rep: char)
    requires run != [] && forall i :: 0 <= i < |run| ==> inRun(run[i])
    requires y == [] || !inRun(y[0])
    ensures ReplaceRuns(run + y, inRun, rep) == [rep] + ReplaceRuns(y, inRun, rep)
  {
    calc {
      ReplaceRuns(run + y, inRun, rep);
      { ConsRegroup(run, y); }
      ReplaceRuns([run[0]] + (run[1..] + y), inRun, rep);
      { ReplaceRunsHead(run[0], run[1..] + y, inRun, rep); }
      [rep] + ReplaceRuns(DropWhile(run[1..] + y, inRun), inRun, rep);
      { DropWhileRun(run[1..], y, inRun); }
      [rep] + ReplaceRuns(y, inRun, rep);
    }
  }

  /** A character of the class starts a run that becomes one `rep`. */
  lemma ReplaceRunsHead(c: char, y: string, inRun: char -> bool, rep: char)
    requires inRun(c)
    ensures ReplaceRuns([c] + y, inRun, rep) == [rep] + ReplaceRuns(DropWhile(y, inRun), inRun, rep)
  {
    assert ([c] + y)[0] == c && ([c] + y)[1..] == y;
  }

  /** Every character of the result other than `rep` comes from the input. */
  lemma {:induction false} ReplaceRunsFrom(s: string, inRun: char -> bool, rep: char, c: char)
    requires c != rep && c in ReplaceRuns(s, inRun, rep)
    ensures c in s
    decreases |s|
  {
    if s != [] {
      if inRun(s[0]) {
        var rest := DropWhile(s[1..], inRun);
        ReplaceRunsFrom(rest, inRun, rep, c);
        assert rest == s[|s| - |rest|..];
      } else if c != s[0] {
        ReplaceRunsFrom(s[1..], inRun, rep, c);
      }
    }
  }

  /** A property the input's characters and `rep` have, the result's
      characters have. */
  lemma ReplaceRunsKeeps(s: string, inRun: char -> bool, rep: char, p: char -> bool)
    requires p(rep)
    requires forall i :: 0 <= i < |s| ==> p(s[i])
    ensures forall i :: 0 <= i < |ReplaceRuns(s, inRun, rep)| ==> p(ReplaceRuns(s, inRun, rep)[i])
  {
    var r := ReplaceRuns(s, inRun, rep);
    forall i | 0 <= i < |r| ensures p(r[i]) {
      if r[i] != rep {
        ReplaceRunsFrom(s, inRun, rep, r[i]);
        var k :| 0 <= k < |s| && s[k] == r[i];
      }
    }
  }

  /** Characters outside the class pass through unchanged. */
  lemma {:induction false} ReplaceRunsOutside(x: string, y: string, inRun: char -> bool, rep: char)
    requires forall i :: 0 <= i < |x| ==> !inRun(x[i])
    ensures ReplaceRuns(x + y, inRun, rep) == x + ReplaceRuns(y, inRun, rep)
    decreases |x|
  {
    if x == [] {
      assert x + y == y;
    } else {
      assert x + y == [x[0]] + (x[1..] + y);
      ReplaceRunsKept(x[0], x[1..] + y, inRun, rep);
      ReplaceRunsOutside(x[1..], y, inRun, rep);
      ConsRegroup(x, ReplaceRuns(y, inRun, rep));
    }
  }

  /** A character outside the class is copied. */
  lemma ReplaceRunsKept(c: char, y: string, inRun: char -> bool, rep: char)
    requires !inRun(c)
    ensures ReplaceRuns([c] + y, inRun, rep) == [c] + ReplaceRuns(y, inRun, rep)
  {
    assert ([c] + y)[0] == c && ([c] + y)[1..] == y;
  }

  lemma ConsRegroup(x: string, z: string)
    requires x != []
    ensures [x[0]] + (x[1..] + z) == x + z
  {
    assert x == [x[0]] + x[1..];
  }

  /** A run of one character becomes `rep`. */
  lemma ReplaceRunsSingle(c: char, y: string, inRun: char -> bool, rep: char)
    requires inRun(c) && (y == [] || !inRun(y[0]))
    ensures ReplaceRuns([c] + y, inRun, rep) == [rep] + ReplaceRuns(y, inRun, rep)
  {
    assert ([c] + y)[1..] == y;
  }

  /** Two words each behind one separator: each separator becomes `rep`. */
  lemma RunsOfTwo(c: char, a: string, b: string, inRun: char -> bool, rep: char)
    requires inRun(c) && a != [] && b != []
    requires forall i :: 0 <= i < |a| ==> !inRun(a[i])
    requires forall i :: 0 <= i < |b| ==> !inRun(b[i])
    ensures ReplaceRuns([c] + a + [c] + b, inRun, rep) == [rep] + a + [rep] + b
  {
    var t1 := [c] + b;
    var t2 := a + t1;
    assert t2[0] == a[0];
    calc {
      ReplaceRuns([c] + a + [c] + b, inRun, rep);
      { Regroup(c, a, b); }
      ReplaceRuns([c] + t2, inRun, rep);
      { ReplaceRunsSingle(c, t2, inRun, rep); }
      [rep] + ReplaceRuns(t2, inRun, rep);
      { ReplaceRunsOutside(a, t1, inRun, rep); }
      [rep] + (a + ReplaceRuns(t1, inRun, rep));
      { RunsOfOne(c, b, inRun, rep); }
      [rep] + (a + ([rep] + b));
      { Regroup(rep, a, b); }
      [rep] + a + [rep] + b;
    }
  }

  lemma Regroup<T>(c: T, a: seq<T>, b: seq<T>)
    ensures [c] + a + [c] + b == [c] + (a + ([c] + b))
  {
  }

  /** One word behind one separator. */
  lemma RunsOfOne(c: char, a: string, inRun: char -> bool, rep: char)
    requires inRun(c) && a != []
    requires forall i :: 0 <= i < |a| ==> !inRun(a[i])
    ensures ReplaceRuns([c] + a, inRun, rep) == [rep] + a
  {
    ReplaceRunsOutside(a, [], inRun, rep);
    assert a + [] == a;
    ReplaceRunsSingle(c, a, inRun, rep);
  }

  /** Keep exactly the characters satisfying `keep`, in order: each kept
      character as often as in the input, the others not at all. */
  function Filter(s: string, keep: char -> bool): (r: string)
    ensures forall i :: 0 <= i < |r| ==> keep(r[i])
    ensures forall c :: c in r <==> c in s && keep(c)
    ensures forall c {:trigger CountChar(r, c)} :: CountChar(r, c) == if keep(c) then CountChar(s, c) else 0
    ensures |r| <= |s|
    decreases |s|
  {
    if s == [] then []
    else if keep(s[0]) then [s[0]] + Filter(s[1..], keep)
    else Filter(s[1..], keep)
  }

  /** Filtering a concatenation filters each side. */
  lemma {:induction false} FilterAppend(a: string, b: string, keep: char -> bool)
    ensures Filter(a + b, keep) == Filter(a, keep) + Filter(b, keep)
    decreases |a|
  {
    if a == [] {
      assert a + b == b;
    } else {
      assert (a + b)[0] == a[0] && (a + b)[1..] == a[1..] + b;
      FilterAppend(a[1..], b, keep);
    }
  }

  /** Filtering keeps a text whose every character passes. */
  lemma {:induction false} FilterAll(s: string, keep: char -> bool)
    requires forall i :: 0 <= i < |s| ==> keep(s[i])
    ensures Filter(s, keep) == s
    decreases |s|
  {
    if s != [] {
      FilterAll(s[1..], keep);
    }
  }

  /** No two spaces in a row. */
  ghost predicate NoDoubleSpace(s: string) {
    forall i, j :: 0 <= i < j < |s| && j == i + 1 ==> !(s[i] == ' ' && s[j] == ' ')
  }

  /** `re.sub(r'\s+', ' ', s)`: every non-space character is kept, as
      often as in the input, and only single spaces separate them. */
  function CollapseSpaces(s: string): (r: string)
    ensures forall i :: 0 <= i < |r| && IsSpace(r[i]) ==> r[i] == ' '
    ensures NoDoubleSpace(r)
    ensures forall c {:trigger CountChar(r, c)} :: !IsSpace(c) ==> CountChar(r, c) == CountChar(s, c)
    ensures |s| > 0 ==> |r| > 0
  {
    ReplaceRuns(s, IsSpace, ' ')
  }

  /** Each whitespace run becomes one space, and the text around it stays. */
  lemma CollapseStep(x: string, run: string, y: string)
    requires NoSpace(x)
    requires run != [] && forall i :: 0 <= i < |run| ==> IsSpace(run[i])
    requires y == [] || !IsSpace(y[0])
    ensures CollapseSpaces(x + run + y) == x + " " + CollapseSpaces(y)
  {
    ReplaceRunsStep(x, run, y, IsSpace, ' ');
  }

  /** Two words with one space between them are already collapsed and
      trimmed. */
  lemma SpacedWords(x: string, y: string)
    requires x != [] && y != [] && NoSpace(x) && NoSpace(y)
    ensures Strip(CollapseSpaces(x + " " + y)) == x + " " + y
  {
    CollapseStep(x, " ", y);
    assert y + [] == y;
    ReplaceRunsOutside(y, [], IsSpace, ' ');
    StripNoop(x + " " + y);
  }

  function CountChar(s: string, c: char): nat
    decreases |s|
  {
    if s == [] then 0 else (if s[0] == c then 1 else 0) + CountChar(s[1..], c)
  }

  lemma {:induction false} CountCharAppend(a: string, b: string, c: char)
    ensures CountChar(a + b, c) == CountChar(a, c) + CountChar(b, c)
    decreases |a|
  {
    if a == [] {
      assert a + b == b;
    } else {
      assert (a + b)[1..] == a[1..] + b;
      CountCharAppend(a[1..], b, c);
    }
  }

  /** `strip()` cuts only whitespace: every other character is kept, as
      often as it occurs. */
  lemma StripCount(s: string, c: char)
    requires !IsSpace(c)
    ensures CountChar(Strip(s), c) == CountChar(s, c)
  {
    var r := Strip(s);
    var a := |s| - |LStrip(s)|;
    var b := a + |r|;
    StripEdges(s);
    calc {
      CountChar(s, c);
      { Recompose(s, LStrip(s), r, a); }
      CountChar(s[..a] + (r + s[b..]), c);
      { CountCharAppend(s[..a], r + s[b..], c); CountCharAppend(r, s[b..], c); }
      CountChar(s[..a], c) + (CountChar(r, c) + CountChar(s[b..], c));
      { SpacesLack(s[..a], c); SpacesLack(s[b..], c);
        CountCharAbsent(s[..a], c); CountCharAbsent(s[b..], c); }
      CountChar(r, c);
    }
  }

  /** A text is what precedes a suffix `l`, a prefix `r` of `l`, and
      what follows `r`. */
  lemma Recompose(s: string, l: string, r: string, a: nat)
    requires a <= |s| && l == s[a..] && |r| <= |l| && r == l[..|r|]
    ensures s == s[..a] + (r + s[a + |r|..])
  {
    assert s == s[..a] + s[a..];
    assert l == l[..|r|] + l[|r|..];
    assert l[|r|..] == s[a + |r|..];
  }

  lemma StripEdges(s: string)
    ensures var a := |s| - |LStrip(s)|;
            var b := a + |Strip(s)|;
            && (forall k :: 0 <= k < a ==> IsSpace(s[..a][k]))
            && (forall k :: 0 <= k < |s| - b ==> IsSpace(s[b..][k]))
  {
    var a := |s| - |LStrip(s)|;
    var b := a + |Strip(s)|;
    forall k | 0 <= k < a ensures IsSpace(s[..a][k]) {
      assert s[..a][k] == s[k];
    }
    forall k | 0 <= k < |s| - b ensures IsSpace(s[b..][k]) {
      assert s[b..][k] == s[b + k];
    }
  }

  /** Whitespace holds no non-space character. */
  lemma SpacesLack(w: string, c: char)
    requires !IsSpace(c)
    requires forall k :: 0 <= k < |w| ==> IsSpace(w[k])
    ensures c !in w
  {
  }

  lemma CountCharAbsent(s: string, c: char)
    requires c !in s
    ensures CountChar(s, c) == 0
  {
  }

  /** A slice holds no more of a character than the whole. */
  lemma CountCharSlice(s: string, i: nat, j: nat, c: char)
    requires i <= j <= |s|
    ensures CountChar(s[i..j], c) <= CountChar(s, c)
  {
    assert s == s[..i] + s[i..j] + s[j..];
    CountCharAppend(s[..i] + s[i..j], s[j..], c);
    CountCharAppend(s[..i], s[i..j], c);
  }

  /** Replacing a pattern by text with fewer of a character never adds any
      of it, and removes some when the pattern occurs. */
  lemma {:induction false} ReplaceCountChar(s: string, pat: string, rep: string, c: char)
    requires |pat| > 0 && CountChar(rep, c) < CountChar(pat, c)
    ensures CountChar(Replace(s, pat, rep), c) <= CountChar(s, c)
    ensures Contains(s, pat) ==> CountChar(Replace(s, pat, rep), c) < CountChar(s, c)
    decreases |s|
  {
    match Find(s, pat)
    case None =>
    case Some(i) =>
      var rest := s[i + |pat|..];
      ReplaceCountChar(rest, pat, rep, c);
      assert s == s[..i] + pat + rest;
      CountCharAppend(s[..i] + pat, rest, c);
      CountCharAppend(s[..i], pat, c);
      var done := Replace(rest, pat, rep);
      assert Replace(s, pat, rep) == s[..i] + rep + done;
      CountCharAppend(s[..i] + rep, done, c);
      CountCharAppend(s[..i], rep, c);
  }

  // ---------------------------------------------------------------------
  // Python slicing and decimal rendering
  // ---------------------------------------------------------------------

  /** `s[:k]` with Python's reading of a negative bound. */
  function SliceTo(s: string, k: int): (r: string)
    ensures |r| <= |s| && r == s[..|r|]
    ensures k >= 0 ==> |r| == if k < |s| then k else |s|
    ensures k < 0 ==> |r| == if |s| + k > 0 then |s| + k else 0
  {
    if k >= 0 then (if k < |s| then s[..k] else s)
    else (if |s| + k > 0 then s[..|s| + k] else [])
  }

  /** `str(n)` for a natural number. */
  function NatToString(n: nat): (r: string)
    ensures |r| >= 1
    ensures forall i :: 0 <= i < |r| ==> IsDigit(r[i])
    decreases n
  {
    var d := ['0' + (n % 10) as char];
    if n < 10 then d else NatToString(n / 10) + d
  }
}
