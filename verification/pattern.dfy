/** Python regular-expression pieces shared by the link engine and the
    line reformatter: unescaped `.` wildcards and the unanchored scan of
    `re.search`. */
module Pattern {
  import opened PyStr

  /** One position of a dispatch pattern: a literal character, or an
      unescaped `.`, which matches anything but a newline. */
  datatype Atom = Lit(c: char) | AnyButNewline

  predicate AtomMatches(a: Atom, c: char) {
    match a
    case Lit(x) => c == x
    case AnyButNewline => c != '\n'
  }

  /** A pattern written with unescaped dots, as the dispatch writes them. */
  function Dotted(p: string): seq<Atom> {
    seq(|p|, j requires 0 <= j < |p| => if p[j] == '.' then AnyButNewline else Lit(p[j]))
  }

  /** A pattern whose every character is literal (`\.` included). */
  function Literal(p: string): seq<Atom> {
    seq(|p|, j requires 0 <= j < |p| => Lit(p[j]))
  }

  predicate MatchAt(s: string, pat: seq<Atom>, i: nat) {
    i + |pat| <= |s| && forall j :: 0 <= j < |pat| ==> AtomMatches(pat[j], s[i + j])
  }

  /** `re.search(pat, s)`, scanning left to right. */
  predicate Search(s: string, pat: seq<Atom>)
    decreases |s|
  {
    MatchAt(s, pat, 0) || (|s| > 0 && Search(s[1..], pat))
  }

  lemma MatchAtShift(s: string, pat: seq<Atom>, i: nat)
    requires |s| > 0
    ensures MatchAt(s[1..], pat, i) <==> MatchAt(s, pat, i + 1)
  {
    if MatchAt(s, pat, i + 1) {
      forall j | 0 <= j < |pat| ensures AtomMatches(pat[j], s[1..][i + j]) {
        assert s[1..][i + j] == s[i + 1 + j];
      }
    }
  }

  /** The scan finds a match exactly when one exists somewhere. */
  lemma {:induction false} SearchFindsMatch(s: string, pat: seq<Atom>)
    ensures Search(s, pat) <==> exists i: nat :: MatchAt(s, pat, i)
    decreases |s|
  {
    if |s| > 0 {
      SearchFindsMatch(s[1..], pat);
      if Search(s, pat) && !MatchAt(s, pat, 0) {
        var i: nat :| MatchAt(s[1..], pat, i);
        MatchAtShift(s, pat, i);
      }
      if exists i: nat :: MatchAt(s, pat, i) {
        var i: nat :| MatchAt(s, pat, i);
        if i > 0 {
          MatchAtShift(s, pat, i - 1);
        }
      }
    }
  }

  lemma LiteralMatch(s: string, p: string, i: nat)
    ensures MatchAt(s, Literal(p), i) <==> OccursAt(s, p, i)
  {
    if MatchAt(s, Literal(p), i) {
      assert s[i..i + |p|] == p by {
        forall j | 0 <= j < |p| ensures s[i..i + |p|][j] == p[j] {
          assert AtomMatches(Literal(p)[j], s[i + j]);
        }
      }
    }
    if OccursAt(s, p, i) {
      forall j | 0 <= j < |p| ensures AtomMatches(Literal(p)[j], s[i + j]) {
        assert s[i..i + |p|][j] == s[i + j];
      }
    }
  }

  /** A pattern without metacharacters is a substring test. */
  lemma LiteralSearch(s: string, p: string)
    ensures Search(s, Literal(p)) <==> Contains(s, p)
  {
    SearchFindsMatch(s, Literal(p));
    if Contains(s, p) {
      LiteralMatch(s, p, Find(s, p).value);
    }
    if Search(s, Literal(p)) {
      var i: nat :| MatchAt(s, Literal(p), i);
      LiteralMatch(s, p, i);
    }
  }

  /** An unescaped dot also matches a dot, so a dotted pattern finds every
      literal occurrence of its text (and more). */
  lemma DottedFindsLiteral(s: string, p: string)
    requires Contains(s, p)
    ensures Search(s, Dotted(p))
  {
    var i := Find(s, p).value;
    forall j | 0 <= j < |p| ensures AtomMatches(Dotted(p)[j], s[i + j]) {
      assert s[i..i + |p|][j] == s[i + j];
    }
    assert MatchAt(s, Dotted(p), i);
    SearchFindsMatch(s, Dotted(p));
  }
}
