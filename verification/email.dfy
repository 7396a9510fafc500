/** The e-mail check of the signature form, the regular expression
    `^[^\s@]+@[^\s@]+\.[^\s@]+$`, given twice: as the set of strings the
    expression matches (a ghost reference) and as a direct scan, with a proof
    that the two agree on every string. */
module Email {
  import opened Seqs
  import opened Text

  /** A character of the class `[^\s@]`. */
  predicate Plain(c: char) {
    !IsWhitespace(c) && c != '@'
  }

  predicate AllPlain(s: string) {
    forall i :: 0 <= i < |s| ==> Plain(s[i])
  }

  predicate IsAt(c: char) {
    c == '@'
  }

  /** The expression matches `t` with its `@` at index `p` and its literal `.`
      at index `q`: each of the three `[^\s@]+` runs is non-empty and plain. */
  ghost predicate MatchesAt(t: string, p: int, q: int) {
    && 0 < p && p + 1 < q && q + 1 < |t|
    && t[p] == '@' && t[q] == '.'
    && AllPlain(t[..p]) && AllPlain(t[p + 1..q]) && AllPlain(t[q + 1..])
  }

  /** The whole-string match of the anchored expression: some choice of the
      two split points works (the backtracking engine finds one if any exists). */
  ghost predicate PatternMatches(t: string) {
    exists p, q :: MatchesAt(t, p, q)
  }

  /** The domain part has a `.` with at least one character on each side. */
  predicate HasInnerDot(d: string) {
    exists i :: 0 < i < |d| - 1 && d[i] == '.'
  }

  /** Direct check: no whitespace anywhere, a non-empty local part before the
      first `@`, no second `@`, and an inner `.` in what follows the `@`. */
  predicate MatchesEmail(t: string) {
    var p := FirstIndex(t, IsAt);
    && 0 < p < |t|
    && (forall i :: 0 <= i < |t| ==> !IsWhitespace(t[i]))
    && (forall i :: p < i < |t| ==> t[i] != '@')
    && HasInnerDot(t[p + 1..])
  }

  lemma ScanGivesMatch(t: string)
    requires MatchesEmail(t)
    ensures PatternMatches(t)
  {
    var p := FirstIndex(t, IsAt);
    var d := t[p + 1..];
    var i :| 0 < i < |d| - 1 && d[i] == '.';
    var q := p + 1 + i;
    assert t[q] == d[i];
    assert forall k :: 0 <= k < p ==> !IsAt(t[k]);
    assert AllPlain(t[..p]);
    assert AllPlain(t[p + 1..q]);
    assert AllPlain(t[q + 1..]);
    assert MatchesAt(t, p, q);
  }

  lemma MatchGivesScan(t: string, p: int, q: int)
    requires MatchesAt(t, p, q)
    ensures MatchesEmail(t)
  {
    var first := FirstIndex(t, IsAt);
    assert forall k :: 0 <= k < p ==> t[..p][k] == t[k];
    assert IsAt(t[p]);
    assert first == p;
    forall i | 0 <= i < |t|
      ensures !IsWhitespace(t[i])
    {
      if i < p {
        assert t[i] == t[..p][i];
      } else if p < i < q {
        assert t[i] == t[p + 1..q][i - p - 1];
      } else if q < i {
        assert t[i] == t[q + 1..][i - q - 1];
      }
    }
    forall i | p < i < |t|
      ensures t[i] != '@'
    {
      if i < q {
        assert t[i] == t[p + 1..q][i - p - 1];
      } else if q < i {
        assert t[i] == t[q + 1..][i - q - 1];
      }
    }
    var d := t[p + 1..];
    assert d[q - p - 1] == '.';
    assert HasInnerDot(d);
  }

  /** The scan accepts exactly the strings the regular expression matches. */
  lemma MatchesEmailIffPattern(t: string)
    ensures MatchesEmail(t) <==> PatternMatches(t)
  {
    if MatchesEmail(t) {
      ScanGivesMatch(t);
    }
    if PatternMatches(t) {
      var p, q :| MatchesAt(t, p, q);
      MatchGivesScan(t, p, q);
    }
  }

  /** `a@b.c` matches, and dots may also appear inside either side. */
  lemma AcceptedExamples()
    ensures PatternMatches("a@b.c")
    ensures PatternMatches("a.b@c.d.e")
  {
    assert MatchesAt("a@b.c", 1, 3);
    assert MatchesAt("a.b@c.d.e", 3, 5);
  }

  /** A domain without a dot, a dot right after the `@`, and a trailing dot
      are all refused. */
  lemma RejectedDomainExamples()
    ensures !PatternMatches("a@b")
    ensures !PatternMatches("a@.c")
    ensures !PatternMatches("a@b.")
  {
    MatchesEmailIffPattern("a@b");
    assert FirstIndex("a@b", IsAt) == 1;
    MatchesEmailIffPattern("a@.c");
    assert FirstIndex("a@.c", IsAt) == 1;
    MatchesEmailIffPattern("a@b.");
    assert FirstIndex("a@b.", IsAt) == 1;
  }

  /** An empty local part, a second `@` and embedded whitespace are refused. */
  lemma RejectedShapeExamples()
    ensures !PatternMatches("@b.c")
    ensures !PatternMatches("a@b@c.d")
    ensures !PatternMatches("a b@c.d")
  {
    MatchesEmailIffPattern("@b.c");
    assert FirstIndex("@b.c", IsAt) == 0;
    MatchesEmailIffPattern("a@b@c.d");
    assert FirstIndex("a@b@c.d", IsAt) == 1;
    MatchesEmailIffPattern("a b@c.d");
    assert IsWhitespace("a b@c.d"[1]);
  }
}
