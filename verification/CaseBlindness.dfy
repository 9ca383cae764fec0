/** Letter case matters neither in a pattern nor in a string. */
module CaseBlindness {
  import opened Chars
  import opened Wildcards

  /** Texts that agree, letter case aside, have their wildcards, quotes and spaces in the same places. */
  lemma SameMark(p: string, q: string, i: nat)
    requires SameText(p, q) && i < |p|
    ensures ToLower(p[i]) == ToLower(q[i]) && (p[i] == '*' <==> q[i] == '*') && (p[i] == '%' <==> q[i] == '%')
    ensures (p[i] == '?' <==> q[i] == '?') && (p[i] == '\\' <==> q[i] == '\\') && (p[i] == SPACE <==> q[i] == SPACE)
  {
  }

  lemma SameToken(p: string, q: string, m: nat)
    requires SameText(p, q) && m < |p|
    ensures IsFixed(p, m) <==> IsFixed(q, m)
    ensures IsFixed(p, m) ==>
      && After(p, m) == After(q, m) && (TokenAt(p, m).Literal? <==> TokenAt(q, m).Literal?)
      && (TokenAt(p, m).Any? <==> TokenAt(q, m).Any?)
      && forall c, d :: ToLower(c) == ToLower(d) ==> (Accepts(TokenAt(p, m), c) <==> Accepts(TokenAt(q, m), d))
  {
    SameMark(p, q, m);
    if m + 1 < |p| {
      SameMark(p, q, m + 1);
    }
    hide SameText, ToLower;
  }

  lemma SameTakes(p: string, q: string, m: nat, s: string, t: string, n: nat)
    requires SameText(p, q) && SameText(s, t) && IsFixed(p, m) && IsFixed(q, m)
    ensures TakesAt(p, m, s, n) <==> TakesAt(q, m, t, n)
  {
    SameToken(p, q, m);
    if n < |s| {
      SameMark(s, t, n);
    }
    hide ToLower, Accepts, IsFixed;
  }

  lemma {:induction false} SameWalk(p: string, q: string, m: nat, s: string, t: string, n: nat)
    requires SameText(p, q) && SameText(s, t) && m <= |p| && n <= |s|
    ensures Walk(p, m, s, n) == Walk(q, m, t, n)
    decreases |p| - m
  {
    if IsFixed(p, m) {
      SameToken(p, q, m);
      SameTakes(p, q, m, s, t, n);
      hide SameText, TakesAt, Accepts;
      if TakesAt(p, m, s, n) {
        assert n < |s| by {
          TakesInside(p, m, s, n);
        }
        SameMark(s, t, n);
        SameWalk(p, q, After(p, m), s, t, n + 1);
      }
    } else if m < |p| {
      SameMark(p, q, m);
    }
  }

  lemma TakesInside(p: string, m: nat, s: string, n: nat)
    requires IsFixed(p, m) && TakesAt(p, m, s, n)
    ensures n < |s|
  {
  }

  lemma {:induction false} SameCommits(p: string, q: string, m: nat, s: string, t: string, n: nat)
    requires SameText(p, q) && SameText(s, t) && m <= |p| && n <= |s| && Commits(p, m, s, n)
    ensures Commits(q, m, t, n)
    decreases |p| - m, 0, 0
  {
    if m < |p| {
      SameMark(p, q, m);
      if p[m] == '*' {
        var k := Chosen(p, m + 1, s, n);
        SameCommits(p, q, m + 1, s, t, k);
        assert CommitsLater(q, m + 1, t, n);
      } else if p[m] == '%' {
        SameFirstFit(p, q, m + 1, s, t, n);
      } else {
        SameToken(p, q, m);
        SameTakes(p, q, m, s, t, n);
        SameCommits(p, q, After(p, m), s, t, n + 1);
      }
    }
  }

  lemma {:induction false} SameFirstFit(p: string, q: string, m: nat, s: string, t: string, n: nat)
    requires SameText(p, q) && SameText(s, t) && m <= |p| && n <= |s| && FirstFit(p, m, s, n)
    ensures FirstFit(q, m, t, n)
    decreases |p| - m, 1, |s| - n
  {
    SameWalk(p, q, m, s, t, n);
    hide SameText, Walk;
    match Walk(p, m, s, n)
    case Failed =>
      SameMark(s, t, n);
      SameFirstFit(p, q, m, s, t, n + 1);
    case Finished =>
    case Committed(m', n') => SameCommits(p, q, m', s, t, n');
  }

  lemma {:induction false} SameLiterals(p: string, q: string, m: nat)
    requires SameText(p, q) && m <= |p|
    ensures Literals(p, m) == Literals(q, m)
    decreases |p| - m
  {
    if m < |p| {
      SameToken(p, q, m);
      SameMark(p, q, m);
      hide SameText, Accepts;
      SameLiterals(p, q, if IsFixed(p, m) then After(p, m) else m + 1);
    }
  }

  lemma TextSymmetric(p: string, q: string)
    requires SameText(p, q)
    ensures SameText(q, p)
  {
  }

  /** The matcher's verdict and its count stay the same when letters of the pattern or of the string change case. */
  lemma {:induction false} CaseBlind(p: string, q: string, s: string, t: string)
    requires SameText(p, q) && SameText(s, t)
    ensures (Commits(p, 0, s, 0) <==> Commits(q, 0, t, 0)) && Literals(p, 0) == Literals(q, 0)
  {
    TextSymmetric(p, q);
    TextSymmetric(s, t);
    hide SameText, Commits;
    SameLiterals(p, q, 0);
    if Commits(p, 0, s, 0) {
      SameCommits(p, q, 0, s, t, 0);
    } else if Commits(q, 0, t, 0) {
      SameCommits(q, p, 0, t, s, 0);
    }
  }

  /** What counts as the same letter: the twenty-six letters of ASCII in both cases, and nothing else. */
  lemma {:induction false} CasePairs(c: char, d: char)
    ensures ToLower(c) == ToLower(d)
      <==> || c == d
           || ('A' <= c <= 'Z' && d as int == c as int + 32)
           || ('A' <= d <= 'Z' && c as int == d as int + 32)
  {
  }

  // ---------------------------------------------------------------- the count

  /** The characters of a pattern that are no wildcards. */
  function PlainCharacters(p: string, m: nat): nat
    requires m <= |p|
    decreases |p| - m
  {
    if m == |p| then 0
    else (if p[m] == '*' || p[m] == '%' || p[m] == '?' then 0 else 1) + PlainCharacters(p, m + 1)
  }

  /** What the matcher counts in a pattern without a backslash is the characters that are no wildcards. */
  lemma {:induction false} LiteralsArePlain(p: string, m: nat)
    requires m <= |p| && '\\' !in p
    ensures Literals(p, m) == PlainCharacters(p, m)
    decreases |p| - m
  {
    if m < |p| {
      assert p[m] in p;
      LiteralsArePlain(p, m + 1);
    }
  }
}
