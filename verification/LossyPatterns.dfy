/** Patterns with which the glob matcher of reg.c misses a match: for patterns without `*` it is settled which they
    are. */
module LossyPatterns {
  import opened Chars
  import opened Wildcards

  /** No `*`, and no backslash with nothing to quote. */
  predicate Starless(p: string, m: nat)
    requires m <= |p|
    decreases |p| - m
  {
    if m == |p| then true
    else if IsWild(p, m) then p[m] == '%' && Starless(p, m + 1)
    else !TokenAt(p, m).Bad? && Starless(p, After(p, m))
  }

  lemma {:induction false} StarlessTokens(p: string, m: nat)
    requires m <= |p| && Starless(p, m)
    ensures var e := TokensEnd(p, m);
      && Starless(p, e) && (forall i :: 0 <= i < |Tokens(p, m)| ==> !Tokens(p, m)[i].Bad?)
      && (IsFixed(p, e) ==> Starless(p, After(p, e)))
    decreases |p| - m
  {
    if IsFixed(p, m) && !IsSpace(p, m) {
      StarlessTokens(p, After(p, m));
    }
  }

  // ---------------------------------------------------------------- a string that is missed

  /** A character that the token takes, `c` for a `?`. */
  function Taken(t: Fixed, c: char): (r: char)
    requires !t.Bad?
    ensures Accepts(t, r)
  {
    if t.Any? then c else t.c
  }

  /** The shortest match with as many spaces as there can be. */
  function Fullest(p: string, m: nat): string
    requires m <= |p| && Starless(p, m)
    decreases |p| - m
  {
    if m == |p| then ""
    else if IsWild(p, m) then Fullest(p, m + 1)
    else [Taken(TokenAt(p, m), SPACE)] + Fullest(p, After(p, m))
  }

  predicate Good(g: seq<Fixed>) {
    forall i :: 0 <= i < |g| ==> !g[i].Bad? && (g[i].Literal? ==> g[i].c != SPACE)
  }

  /** One word that the tokens take. */
  function OneWord(g: seq<Fixed>): (r: string)
    requires Good(g)
    ensures |r| == |g| && NoSpace(r, 0, |r|) && forall i :: 0 <= i < |g| ==> Accepts(g[i], r[i])
  {
    seq(|g|, i requires 0 <= i < |g| => Taken(g[i], 'x'))
  }

  /** What `g[i]` takes so that the token `d` places on takes it, too, and a space at the place behind the last. */
  function OverlaidAt(g: seq<Fixed>, d: nat, i: nat): (c: char)
    requires Good(g) && ShiftsBy(g, d) && i < |g|
    ensures Accepts(g[i], c) && (i + d < |g| ==> Accepts(g[i + d], c)) && (i + d == |g| ==> c == SPACE)
  {
    assert i + d < |g| ==> Agree(g[i + d], g[i + d - d]);
    Taken(g[i], if i + d < |g| then Taken(g[i + d], SPACE) else SPACE)
  }

  function Overlaid(g: seq<Fixed>, d: nat): (r: string)
    requires Good(g) && ShiftsBy(g, d)
    ensures |r| == |g| && forall i :: 0 <= i < |g| ==> r[i] == OverlaidAt(g, d, i)
  {
    seq(|g|, i requires 0 <= i < |g| => OverlaidAt(g, d, i))
  }

  ghost function Shift(g: seq<Fixed>): (d: nat)
    requires exists d :: 1 <= d <= |g| && ShiftsBy(g, d)
    ensures 1 <= d <= |g| && ShiftsBy(g, d)
  {
    var d :| 1 <= d <= |g| && ShiftsBy(g, d);
    d
  }

  /** A string that the pattern from `m` on means, and ahead of it a word for the `%` before `m` that the first fit
      takes for the beginning of the match. */
  datatype Trap = Trap(word: string, rest: string)

  ghost function TrapAt(p: string, m: nat): Trap
    requires m <= |p| && Starless(p, m) && Blurred(p, m)
  {
    var g, e := Tokens(p, m), TokensEnd(p, m);
    StarlessTokens(p, m);
    if IsWild(p, e) then Trap(OneWord(g), Fullest(p, m))
    else Trap(OneWord(g)[..Shift(g)], Overlaid(g, Shift(g)) + ([SPACE] + Fullest(p, After(p, e))))
  }

  /** A match of the whole pattern with one trap in it. */
  ghost function Missed(p: string, m: nat): string
    requires m <= |p| && Starless(p, m)
    decreases |p| - m
  {
    if m == |p| then ""
    else if IsWild(p, m) then
      if Blurred(p, m + 1) then TrapAt(p, m + 1).word + TrapAt(p, m + 1).rest else Missed(p, m + 1)
    else [Taken(TokenAt(p, m), SPACE)] + Missed(p, After(p, m))
  }

  /** From `n` on the string reads `t`. */
  predicate Reads(s: string, n: nat, t: string) {
    n <= |s| && s[n..] == t
  }

  lemma ReadsPast(s: string, n: nat, u: string, t: string)
    requires Reads(s, n, u + t)
    ensures Reads(s, n + |u|, t) && n + |u| <= |s| && s[n..n + |u|] == u
    ensures u != "" ==> s[n] == u[0]
  {
    assert s[n..][|u|..] == t && s[n..][..|u|] == u;
    assert s[n..n + |u|] == s[n..][..|u|];
    assert u != "" ==> s[n..][0] == u[0];
  }

  lemma {:induction false} FullestMatches(p: string, m: nat, s: string, n: nat)
    requires m <= |p| && Starless(p, m) && Reads(s, n, Fullest(p, m))
    ensures Matches(p, m, s, n)
    decreases |p| - m
  {
    if m < |p| {
      if IsWild(p, m) {
        FullestMatches(p, m + 1, s, n);
        assert NoSpace(s, n, n);
      } else {
        ReadsPast(s, n, [Taken(TokenAt(p, m), SPACE)], Fullest(p, After(p, m)));
        FullestMatches(p, After(p, m), s, n + 1);
      }
    }
  }

  // ---------------------------------------------------------------- counting spaces

  function Spaces(s: string, n: nat): nat
    requires n <= |s|
    decreases |s| - n
  {
    if n == |s| then 0 else (if s[n] == SPACE then 1 else 0) + Spaces(s, n + 1)
  }

  /** The spaces that the pattern from `m` on can take. */
  function Capacity(p: string, m: nat): nat
    requires m <= |p|
    decreases |p| - m
  {
    if m == |p| then 0
    else if IsWild(p, m) then Capacity(p, m + 1)
    else (if TokenAt(p, m).Any? || IsSpace(p, m) then 1 else 0) + Capacity(p, After(p, m))
  }

  lemma {:induction false} CapacityBehind(p: string, m: nat)
    requires m <= |p|
    ensures Capacity(p, m) >= Capacity(p, TokensEnd(p, m))
    ensures (exists i :: 0 <= i < |Tokens(p, m)| && Tokens(p, m)[i].Any?)
      ==> Capacity(p, m) > Capacity(p, TokensEnd(p, m))
    decreases |p| - m
  {
    if IsFixed(p, m) && !IsSpace(p, m) {
      var g, h := Tokens(p, m), Tokens(p, After(p, m));
      CapacityBehind(p, After(p, m));
      if i :| 0 <= i < |g| && g[i].Any? {
        assert i > 0 ==> h[i - 1].Any?;
      }
    }
  }

  lemma {:induction false} FewerSpaces(s: string, n: nat, k: nat)
    requires n <= k <= |s|
    ensures Spaces(s, n) >= Spaces(s, k)
    ensures NoSpace(s, n, k) ==> Spaces(s, n) == Spaces(s, k)
    decreases k - n
  {
    if n < k {
      FewerSpaces(s, n + 1, k);
    }
  }

  lemma {:induction false} MatchHolds(p: string, m: nat, s: string, n: nat)
    requires m <= |p| && n <= |s| && Starless(p, m) && Matches(p, m, s, n)
    ensures Spaces(s, n) <= Capacity(p, m)
    decreases |p| - m
  {
    if m < |p| {
      if IsWild(p, m) {
        var k :| n <= k <= |s| && NoSpace(s, n, k) && Matches(p, m + 1, s, k);
        FewerSpaces(s, n, k);
        MatchHolds(p, m + 1, s, k);
      } else {
        MatchHolds(p, After(p, m), s, n + 1);
      }
    }
  }

  lemma {:induction false} FullestHolds(p: string, m: nat, s: string, n: nat)
    requires m <= |p| && Starless(p, m) && Reads(s, n, Fullest(p, m))
    ensures Spaces(s, n) == Capacity(p, m)
    decreases |p| - m
  {
    if m < |p| {
      if IsWild(p, m) {
        FullestHolds(p, m + 1, s, n);
      } else {
        ReadsPast(s, n, [Taken(TokenAt(p, m), SPACE)], Fullest(p, After(p, m)));
        FullestHolds(p, After(p, m), s, n + 1);
      }
    }
  }

  // ---------------------------------------------------------------- the first fit goes wrong

  /** The trap works: a match starts behind its word, and the first fit ahead of that leads nowhere. */
  ghost predicate Springs(p: string, m: nat, s: string, n: nat, word: nat)
    requires m <= |p| && n <= |s|
  {
    n + word <= |s| && NoSpace(s, n, n + word) && Matches(p, m, s, n + word) && !FirstFit(p, m, s, n)
  }

  /** There are too many spaces left. */
  lemma TooMany(p: string, m: nat, s: string, n: nat)
    requires m <= |p| && n <= |s| && Starless(p, m) && Spaces(s, n) > Capacity(p, m)
    ensures !Commits(p, m, s, n)
  {
    if Commits(p, m, s, n) {
      CommitsSound(p, m, s, n);
      MatchHolds(p, m, s, n);
    }
  }

  lemma TrapAtPercent(p: string, m: nat, s: string, n: nat)
    requires m <= |p| && Starless(p, m) && Blurred(p, m) && IsWild(p, TokensEnd(p, m))
    requires Good(Tokens(p, m)) && Reads(s, n, OneWord(Tokens(p, m)) + Fullest(p, m))
    ensures Springs(p, m, s, n, |Tokens(p, m)|)
  {
    var g := Tokens(p, m);
    ReadsPast(s, n, OneWord(g), Fullest(p, m));
    WordStands(g, s, n);
    FullestMatches(p, m, s, n + |g|);
    hide Reads, Fits, Fullest, OneWord, Blurred, Tokens, TokensEnd, Starless;
    PercentMisses(p, m, s, n);
  }

  lemma PercentMisses(p: string, m: nat, s: string, n: nat)
    requires m <= |p| && Starless(p, m) && Blurred(p, m) && IsWild(p, TokensEnd(p, m))
    requires Fits(Tokens(p, m), s, n) && Reads(s, n + |Tokens(p, m)|, Fullest(p, m))
    ensures !FirstFit(p, m, s, n)
  {
    var g, e := Tokens(p, m), TokensEnd(p, m);
    FullestHolds(p, m, s, n + |g|);
    CapacityBehind(p, m);
    StarlessTokens(p, m);
    hide Fullest, Starless, Tokens, TokensEnd;
    TooMany(p, e, s, n + |g|);
    WalkTokens(p, m, s, n);
    assert !Leads(p, m, s, n);
    hide Fits, Reads;
  }

  lemma WordStands(g: seq<Fixed>, s: string, n: nat)
    requires Good(g) && n + |g| <= |s| && s[n..n + |g|] == OneWord(g)
    ensures Fits(g, s, n) && NoSpace(s, n, n + |g|)
  {
    var w := s[n..n + |g|];
    assert forall i :: 0 <= i < |g| ==> s[n + i] == w[i];
    assert forall i :: n <= i < n + |g| ==> s[i] == w[i - n];
  }

  /** The word and what is laid over it: the tokens fit at both places. */
  lemma OverlaidStands(g: seq<Fixed>, d: nat, s: string, n: nat)
    requires Good(g) && ShiftsBy(g, d) && n + d + |g| <= |s|
    requires s[n..n + d] == OneWord(g)[..d] && s[n + d..n + d + |g|] == Overlaid(g, d)
    ensures Fits(g, s, n) && Fits(g, s, n + d) && s[n + |g|] == SPACE && NoSpace(s, n, n + d)
  {
    var w, v := s[n..n + d], s[n + d..n + d + |g|];
    forall i | 0 <= i < d ensures s[n + i] == OneWord(g)[i] {
      assert w[i] == OneWord(g)[i];
    }
    forall i | 0 <= i < |g| ensures s[n + d + i] == OverlaidAt(g, d, i) {
      assert v[i] == OverlaidAt(g, d, i);
    }
    hide OneWord, OverlaidAt, Overlaid;
    forall i | 0 <= i < |g| ensures Accepts(g[i], s[n + i]) {
      if i >= d {
        var j := i - d;
        assert n + i == n + d + j && s[n + d + j] == OverlaidAt(g, d, j);
      }
    }
    var last := |g| - d;
    assert n + |g| == n + d + last && s[n + d + last] == OverlaidAt(g, d, last);
    assert forall i :: n <= i < n + d ==> s[i] == w[i - n];
  }

  /** The word of the trap stands at `n` and its rest at `n + d`. */
  ghost predicate Laid(g: seq<Fixed>, d: nat, s: string, n: nat, rest: string) {
    && d > 0 && n + d + |g| < |s| && Reads(s, n + d + |g| + 1, rest) && s[n + d + |g|] == SPACE
    && Fits(g, s, n) && Fits(g, s, n + d) && s[n + |g|] == SPACE && NoSpace(s, n, n + d)
  }

  lemma ReadsParts(s: string, n: nat, u: string, v: string, c: char, t: string)
    requires Reads(s, n, u + (v + ([c] + t)))
    ensures n + |u| + |v| < |s| && s[n..n + |u|] == u && s[n + |u|..n + |u| + |v|] == v
    ensures s[n + |u| + |v|] == c && Reads(s, n + |u| + |v| + 1, t)
  {
    hide Reads;
    ReadsPast(s, n, u, v + ([c] + t));
    ReadsPast(s, n + |u|, v, [c] + t);
    ReadsPast(s, n + |u| + |v|, [c], t);
  }

  lemma LaidOut(g: seq<Fixed>, d: nat, s: string, n: nat, rest: string)
    requires Good(g) && ShiftsBy(g, d) && Reads(s, n, OneWord(g)[..d] + (Overlaid(g, d) + ([SPACE] + rest)))
    ensures Laid(g, d, s, n, rest)
  {
    ReadsParts(s, n, OneWord(g)[..d], Overlaid(g, d), SPACE, rest);
    OverlaidStands(g, d, s, n);
    hide Reads, Fits, ShiftsBy;
  }

  /** The tokens of a trap end in a literal space. */
  predicate AtSpace(p: string, m: nat)
    requires m <= |p|
  {
    IsFixed(p, TokensEnd(p, m)) && Starless(p, After(p, TokensEnd(p, m)))
  }

  function Behind(p: string, m: nat): string
    requires m <= |p| && AtSpace(p, m)
  {
    Fullest(p, After(p, TokensEnd(p, m)))
  }

  lemma SpaceMatches(p: string, m: nat, s: string, n: nat, d: nat)
    requires m <= |p| && AtSpace(p, m) && Laid(Tokens(p, m), d, s, n, Behind(p, m))
    ensures n + d <= |s| && Matches(p, m, s, n + d)
  {
    FullestMatches(p, After(p, TokensEnd(p, m)), s, n + d + |Tokens(p, m)| + 1);
    MatchTokens(p, m, s, n + d);
    hide Fits, Reads;
  }

  lemma SpaceMisses(p: string, m: nat, s: string, n: nat, d: nat)
    requires m <= |p| && AtSpace(p, m) && Laid(Tokens(p, m), d, s, n, Behind(p, m))
    ensures n <= |s| && !FirstFit(p, m, s, n)
  {
    var g, k := Tokens(p, m), After(p, TokensEnd(p, m));
    FullestHolds(p, k, s, n + d + |g| + 1);
    FewerSpaces(s, n + |g| + 1, n + d + |g|);
    TooMany(p, k, s, n + |g| + 1);
    WalkTokens(p, m, s, n);
    assert !Leads(p, m, s, n);
    hide Fits, Reads;
  }

  lemma TrapAtSpace(p: string, m: nat, s: string, n: nat, d: nat)
    requires m <= |p| && AtSpace(p, m) && Good(Tokens(p, m)) && ShiftsBy(Tokens(p, m), d)
    requires Reads(s, n, OneWord(Tokens(p, m))[..d] + (Overlaid(Tokens(p, m), d) + ([SPACE] + Behind(p, m))))
    ensures Springs(p, m, s, n, d)
  {
    LaidOut(Tokens(p, m), d, s, n, Behind(p, m));
    SpaceMatches(p, m, s, n, d);
    SpaceMisses(p, m, s, n, d);
    hide Overlaid, OneWord, ShiftsBy, Fits, Reads, Tokens, Behind, AtSpace;
  }

  lemma TrapSprings(p: string, m: nat, s: string, n: nat)
    requires m <= |p| && Starless(p, m) && Blurred(p, m)
    requires Reads(s, n, TrapAt(p, m).word + TrapAt(p, m).rest)
    ensures Springs(p, m, s, n, |TrapAt(p, m).word|)
  {
    StarlessTokens(p, m);
    hide Springs, Fullest, OneWord, Overlaid, Starless, Tokens, TokensEnd;
    if IsWild(p, TokensEnd(p, m)) {
      TrapAtPercent(p, m, s, n);
    } else {
      TrapAtSpace(p, m, s, n, Shift(Tokens(p, m)));
    }
  }

  /** The string is a match. */
  lemma {:induction false} MissedMatches(p: string, m: nat, s: string, n: nat)
    requires m <= |p| && Starless(p, m) && Reads(s, n, Missed(p, m))
    ensures Matches(p, m, s, n)
    decreases |p| - m
  {
    if m < |p| {
      if !IsWild(p, m) {
        ReadsPast(s, n, [Taken(TokenAt(p, m), SPACE)], Missed(p, After(p, m)));
        MissedMatches(p, After(p, m), s, n + 1);
      } else if Blurred(p, m + 1) {
        TrapSprings(p, m + 1, s, n);
      } else {
        MissedMatches(p, m + 1, s, n);
        assert NoSpace(s, n, n);
      }
    }
  }

  /** Up to the trap the first fit is the right one. */
  lemma {:induction false} WalkToTrap(p: string, m: nat, s: string, n: nat)
    requires m <= |p| && Starless(p, m) && !Sharp(p, m) && Reads(s, n, Missed(p, m))
    ensures var r := Walk(p, m, s, n);
      r.Committed? && Starless(p, r.m) && !Sharp(p, r.m) && Reads(s, r.n, Missed(p, r.m))
    decreases |p| - m
  {
    if IsFixed(p, m) {
      ReadsPast(s, n, [Taken(TokenAt(p, m), SPACE)], Missed(p, After(p, m)));
      WalkToTrap(p, After(p, m), s, n + 1);
    }
  }

  lemma {:induction false} MissedNotFound(p: string, m: nat, s: string, n: nat)
    requires m <= |p| && Starless(p, m) && !Sharp(p, m) && Reads(s, n, Missed(p, m))
    ensures !Commits(p, m, s, n)
    decreases |p| - m
  {
    if !IsWild(p, m) {
      ReadsPast(s, n, [Taken(TokenAt(p, m), SPACE)], Missed(p, After(p, m)));
      MissedNotFound(p, After(p, m), s, n + 1);
    } else if Blurred(p, m + 1) {
      TrapSprings(p, m + 1, s, n);
    } else {
      WalkToTrap(p, m + 1, s, n);
      var r := Walk(p, m + 1, s, n);
      MissedNotFound(p, r.m, s, r.n);
      assert !Leads(p, m + 1, s, n);
      assert !FirstFit(p, m + 1, s, n);
    }
  }

  // ---------------------------------------------------------------- the condition is exact

  /** For patterns without `*`: the loop finds every match of the pattern if and only if no `%` of it is blurred. */
  lemma {:induction false} SharpExactly(p: string)
    requires Starless(p, 0)
    ensures (forall s :: Matches(p, 0, s, 0) ==> Commits(p, 0, s, 0)) <==> Sharp(p, 0)
  {
    if Sharp(p, 0) {
      forall s | Matches(p, 0, s, 0) ensures Commits(p, 0, s, 0) {
        MatchCommits(p, 0, s, 0);
      }
    } else {
      var s := Missed(p, 0);
      assert Reads(s, 0, s);
      MissedMatches(p, 0, s, 0);
      MissedNotFound(p, 0, s, 0);
    }
  }
}
