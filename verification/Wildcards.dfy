/** The glob matcher of reg.c: `*` stands for any run of characters, `%` for any
    run without a space, `?` for one character, a backslash quotes the character
    after it, and letters are compared without case.

    Three things are defined here and compared:
    - `Matches`, what a pattern means;
    - `Commits`, the first-fit reading of a pattern the loop really follows;
    - `WildMatch`, the loop itself. */
module Wildcards {
  import opened Chars

  // ---------------------------------------------------------------- tokens

  /** A fixed token takes exactly one character of the string. */
  datatype Fixed = Any | Literal(c: char, next: nat) | Bad

  predicate IsWild(p: string, m: nat) {
    m < |p| && (p[m] == '*' || p[m] == '%')
  }

  predicate IsFixed(p: string, m: nat) {
    m < |p| && !IsWild(p, m)
  }

  /** The token at `m`, when it is not a `*` or a `%`. `Bad` is a backslash with nothing to quote. */
  function TokenAt(p: string, m: nat): (t: Fixed)
    requires IsFixed(p, m)
    ensures t.Literal? ==> m < t.next <= |p|
  {
    if p[m] == '?' then Any
    else if p[m] != '\\' then Literal(p[m], m + 1)
    else if m + 1 < |p| then Literal(p[m + 1], m + 2)
    else Bad
  }

  /** Where the pattern goes on after the fixed token at `m`. */
  function After(p: string, m: nat): (k: nat)
    requires IsFixed(p, m)
    ensures m < k <= |p|
  {
    var t := TokenAt(p, m);
    if t.Literal? then t.next else m + 1
  }

  predicate Accepts(t: Fixed, c: char) {
    match t
    case Any => true
    case Literal(l, _) => ToLower(l) == ToLower(c)
    case Bad => false
  }

  predicate TakesAt(p: string, m: nat, s: string, n: nat)
    requires IsFixed(p, m)
  {
    n < |s| && Accepts(TokenAt(p, m), s[n])
  }

  /** The number of literal characters in `p[m..]`. */
  function Literals(p: string, m: nat): nat
    requires m <= |p|
    decreases |p| - m
  {
    if m == |p| then 0
    else if IsWild(p, m) then Literals(p, m + 1)
    else (if TokenAt(p, m).Any? then 0 else 1) + Literals(p, After(p, m))
  }

  /** `count` literals of the `total` stand before `m`. */
  predicate Counted(total: nat, p: string, m: nat, count: nat)
    requires m <= |p|
  {
    count + Literals(p, m) == total
  }

  lemma NothingLeft(total: nat, p: string, count: nat)
    requires Counted(total, p, |p|, count)
    ensures count == total
  {
  }

  lemma CountedStep(total: nat, p: string, m: nat, count: nat)
    requires m < |p| && Counted(total, p, m, count)
    ensures IsWild(p, m) || TokenAt(p, m).Any? ==> Counted(total, p, m + 1, count)
    ensures IsFixed(p, m) && !TokenAt(p, m).Any? ==> Counted(total, p, After(p, m), count + 1)
  {
  }

  // ---------------------------------------------------------------- meaning

  /** The pattern from `m` on matches the whole of the string from `n` on. */
  ghost predicate Matches(p: string, m: nat, s: string, n: nat)
    requires m <= |p| && n <= |s|
    decreases |p| - m, 0
  {
    if m == |p| then n == |s|
    else if p[m] == '*' then MatchesLater(p, m + 1, s, n)
    else if p[m] == '%' then MatchesInWord(p, m + 1, s, n)
    else TakesAt(p, m, s, n) && Matches(p, After(p, m), s, n + 1)
  }

  ghost predicate MatchesLater(p: string, m: nat, s: string, n: nat)
    requires m <= |p| && n <= |s|
    decreases |p| - m, 1
  {
    exists k :: n <= k <= |s| && Matches(p, m, s, k)
  }

  ghost predicate MatchesInWord(p: string, m: nat, s: string, n: nat)
    requires m <= |p| && n <= |s|
    decreases |p| - m, 1
  {
    exists k :: n <= k <= |s| && NoSpace(s, n, k) && Matches(p, m, s, k)
  }

  // ---------------------------------------------------------------- first fit

  /** What became of the fixed tokens that follow a `%`. */
  datatype Run =
    | Failed
    | Finished                      // pattern and string ended together
    | Committed(m: nat, n: nat)     // reached a `*` or `%`, or took a literal space

  /** Walk the fixed tokens from `m` on along the string from `n` on. */
  function Walk(p: string, m: nat, s: string, n: nat): (r: Run)
    requires m <= |p| && n <= |s|
    ensures r.Committed? ==> m <= r.m <= |p| && n <= r.n <= |s|
    decreases |p| - m
  {
    if m == |p| then (if n == |s| then Finished else Failed)
    else if IsWild(p, m) then Committed(m, n)
    else if !TakesAt(p, m, s, n) then Failed
    else if TokenAt(p, m).Literal? && s[n] == SPACE then Committed(After(p, m), n + 1)
    else Walk(p, After(p, m), s, n + 1)
  }

  /** Like `Matches`, except that after a `%` the first position where the fixed
      tokens fit is final. */
  ghost predicate Commits(p: string, m: nat, s: string, n: nat)
    requires m <= |p| && n <= |s|
    decreases |p| - m, 0, 0
  {
    if m == |p| then n == |s|
    else if p[m] == '*' then CommitsLater(p, m + 1, s, n)
    else if p[m] == '%' then FirstFit(p, m + 1, s, n)
    else TakesAt(p, m, s, n) && Commits(p, After(p, m), s, n + 1)
  }

  ghost predicate CommitsLater(p: string, m: nat, s: string, n: nat)
    requires m <= |p|
    decreases |p| - m, 2, 0
  {
    exists k :: n <= k <= |s| && Commits(p, m, s, k)
  }

  lemma Chosen(p: string, m: nat, s: string, n: nat) returns (k: nat)
    requires m <= |p| && CommitsLater(p, m, s, n)
    ensures n <= k <= |s| && Commits(p, m, s, k)
  {
    k :| n <= k <= |s| && Commits(p, m, s, k);
  }

  lemma NowOrLater(p: string, m: nat, s: string, n: nat)
    requires m <= |p| && n <= |s|
    ensures CommitsLater(p, m, s, n) <==> Commits(p, m, s, n) || CommitsLater(p, m, s, n + 1)
  {
    if CommitsLater(p, m, s, n) {
      var k := Chosen(p, m, s, n);
      assert k == n || CommitsLater(p, m, s, n + 1);
    }
  }

  lemma StarCommits(p: string, m: nat, s: string, n: nat, k: nat)
    requires m < |p| && p[m] == '*' && n <= k <= |s| && Commits(p, m, s, k)
    ensures CommitsLater(p, m + 1, s, n)
  {
    var j := Chosen(p, m + 1, s, k);
  }

  /** The fixed tokens at `m` start at `n` and the rest commits from where they lead. */
  ghost predicate Leads(p: string, m: nat, s: string, n: nat)
    requires m <= |p| && n <= |s|
    decreases |p| - m, 1, 0
  {
    match Walk(p, m, s, n)
    case Failed => false
    case Finished => true
    case Committed(m', n') => Commits(p, m', s, n')
  }

  ghost predicate FirstFit(p: string, m: nat, s: string, n: nat)
    requires m <= |p| && n <= |s|
    decreases |p| - m, 2, |s| - n
  {
    if Walk(p, m, s, n).Failed? then n < |s| && s[n] != SPACE && FirstFit(p, m, s, n + 1)
    else Leads(p, m, s, n)
  }

  ghost predicate LeadsLater(p: string, m: nat, s: string, n: nat)
    requires m <= |p|
  {
    exists k :: n <= k <= |s| && Leads(p, m, s, k)
  }

  lemma FirstFitLeadsLater(p: string, m: nat, s: string, n: nat)
    requires m <= |p| && n <= |s|
    requires FirstFit(p, m, s, n)
    ensures LeadsLater(p, m, s, n)
    decreases |s| - n
  {
    if Walk(p, m, s, n).Failed? {
      FirstFitLeadsLater(p, m, s, n + 1);
    }
  }

  // ---------------------------------------------------------------- the loop

  const NONE := -1

  /** The positions of the loop: `m`, `n` the current positions, `ma`, `na` where
      the last `*` restarts, `mp`, `np` where the last `%` restarts. */
  datatype Place = Place(m: nat, n: nat, ma: int, na: nat, mp: int, np: nat)

  predicate InRange(p: string, s: string, c: Place) {
    && c.m <= |p| && c.n <= |s|
    && NONE <= c.ma <= c.m && c.na <= c.n
    && NONE <= c.mp <= c.m && c.np <= |s|
    && (c.mp >= 0 ==> c.ma <= c.mp && c.na <= c.np <= c.n)
  }

  /** Some attempt that is still open succeeds: the current one, a later start of the last `%`, or of the last `*`. */
  ghost predicate Open(p: string, s: string, c: Place)
    requires InRange(p, s, c)
  {
    || (if c.mp >= 0 then FirstFit(p, c.mp, s, c.np) else Commits(p, c.m, s, c.n))
    || (c.ma >= 0 && CommitsLater(p, c.ma, s, c.na + 1))
  }

  /** Starting the last `*` later can only succeed through a later start of the current attempt. */
  ghost predicate Dominates(p: string, s: string, c: Place)
    requires InRange(p, s, c)
  {
    c.ma >= 0 && CommitsLater(p, c.ma, s, c.na) ==>
      if c.mp >= 0 then LeadsLater(p, c.mp, s, c.np) else CommitsLater(p, c.m, s, c.n)
  }

  /** An attempt from the last `%`, started at `j`, is an attempt from `m` as far to the right as the current one. */
  ghost predicate ShiftsAt(p: string, s: string, c: Place, j: nat)
    requires InRange(p, s, c) && c.mp >= 0 && j <= |s|
  {
    !Walk(p, c.mp, s, j).Failed? ==>
      j + (c.n - c.np) <= |s| && Walk(p, c.mp, s, j) == Walk(p, c.m, s, j + (c.n - c.np))
  }

  ghost predicate Shifts(p: string, s: string, c: Place)
    requires InRange(p, s, c)
  {
    c.mp >= 0 ==>
      && Walk(p, c.mp, s, c.np) == Walk(p, c.m, s, c.n)
      && forall j: nat :: j <= |s| ==> ShiftsAt(p, s, c, j)
  }

  /** The loop is on the way to the right answer. */
  ghost predicate OnTrack(goal: bool, p: string, s: string, c: Place) {
    && InRange(p, s, c)
    && (goal <==> Open(p, s, c))
    && Dominates(p, s, c)
    && Shifts(p, s, c)
  }

  ghost predicate Ahead(p: string, m: nat, s: string, mp: int, j: nat)
    requires m <= |p| && j <= |s|
  {
    if mp >= 0 then Leads(p, m, s, j) else Commits(p, m, s, j)
  }

  /** Only `?` and `%` stand between the last `*` and `m`: an attempt from `m` can be pulled back to the `*`. */
  ghost predicate Slack(p: string, s: string, c: Place)
    requires InRange(p, s, c) && c.ma >= 0
  {
    forall j: nat :: c.n <= j <= |s| && Ahead(p, c.m, s, c.mp, j) ==> Commits(p, c.ma, s, c.na + (j - c.n))
  }

  /** Later starts of the current attempt are attempts from `m` further right. */
  lemma Later(p: string, s: string, c: Place)
    requires InRange(p, s, c) && Dominates(p, s, c) && Shifts(p, s, c)
    requires c.ma >= 0 && CommitsLater(p, c.ma, s, c.na)
    ensures if c.mp >= 0 then LeadsLater(p, c.m, s, c.n) else CommitsLater(p, c.m, s, c.n)
  {
    if c.mp >= 0 {
      var k :| c.np <= k <= |s| && Leads(p, c.mp, s, k);
      assert ShiftsAt(p, s, c, k);
      assert Leads(p, c.m, s, k + (c.n - c.np));
    }
  }

  lemma PercentCommits(p: string, m: nat, s: string, n: nat, k: nat)
    requires m < |p| && p[m] == '%' && n <= k <= |s| && Commits(p, m, s, k)
    ensures LeadsLater(p, m + 1, s, n)
  {
    FirstFitLeadsLater(p, m + 1, s, k);
  }

  lemma Current(p: string, s: string, c: Place)
    requires InRange(p, s, c) && Shifts(p, s, c) && c.mp >= 0
    requires !Walk(p, c.m, s, c.n).Failed?
    ensures FirstFit(p, c.mp, s, c.np) == Leads(p, c.m, s, c.n)
  {
  }

  lemma AtStar(goal: bool, p: string, s: string, c: Place) returns (d: Place)
    requires OnTrack(goal, p, s, c) && c.m < |p| && p[c.m] == '*'
    ensures d == Place(c.m + 1, c.n, c.m + 1, c.n, NONE, c.np)
    ensures OnTrack(goal, p, s, d) && Slack(p, s, d)
  {
    d := Place(c.m + 1, c.n, c.m + 1, c.n, NONE, c.np);
    NowOrLater(p, c.m + 1, s, c.n);
    if c.mp >= 0 {
      Current(p, s, c);
    }
    if c.ma >= 0 && CommitsLater(p, c.ma, s, c.na + 1) {
      assert CommitsLater(p, c.ma, s, c.na);
      Later(p, s, c);
      if c.mp >= 0 {
        var k :| c.n <= k <= |s| && Leads(p, c.m, s, k);
        StarCommits(p, c.m, s, c.n, k);
      } else {
        var k := Chosen(p, c.m, s, c.n);
        StarCommits(p, c.m, s, c.n, k);
      }
    }
  }

  lemma AtPercent(goal: bool, p: string, s: string, c: Place, just: bool) returns (d: Place)
    requires OnTrack(goal, p, s, c) && c.m < |p| && p[c.m] == '%'
    requires just ==> c.ma >= 0 && Slack(p, s, c)
    ensures d == c.(m := c.m + 1, mp := c.m + 1, np := c.n)
    ensures OnTrack(goal, p, s, d) && (just ==> Slack(p, s, d))
  {
    d := c.(m := c.m + 1, mp := c.m + 1, np := c.n);
    if c.mp >= 0 {
      Current(p, s, c);
    }
    if c.ma >= 0 && CommitsLater(p, c.ma, s, c.na) {
      Later(p, s, c);
      if c.mp >= 0 {
        var k :| c.n <= k <= |s| && Leads(p, c.m, s, k);
        PercentCommits(p, c.m, s, c.n, k);
      } else {
        var k := Chosen(p, c.m, s, c.n);
        PercentCommits(p, c.m, s, c.n, k);
      }
    }
    if just {
      SlackAtPercent(p, s, c, d);
    }
  }

  lemma SlackAtPercent(p: string, s: string, c: Place, d: Place)
    requires InRange(p, s, c) && c.m < |p| && p[c.m] == '%'
    requires c.ma >= 0 && Slack(p, s, c)
    requires d == c.(m := c.m + 1, mp := c.m + 1, np := c.n)
    ensures Slack(p, s, d)
  {
    forall j: nat | d.n <= j <= |s| && Ahead(p, d.m, s, d.mp, j)
      ensures Commits(p, d.ma, s, d.na + (j - d.n))
    {
      assert FirstFit(p, d.m, s, j);
      assert Ahead(p, c.m, s, c.mp, j);
    }
  }

  lemma ShiftOn(p: string, s: string, c: Place, d: Place)
    requires InRange(p, s, c) && InRange(p, s, d) && Shifts(p, s, c)
    requires IsFixed(p, c.m) && TakesAt(p, c.m, s, c.n)
    requires TokenAt(p, c.m).Any? || s[c.n] != SPACE
    requires d == c.(m := After(p, c.m), n := c.n + 1)
    ensures Shifts(p, s, d)
  {
    if c.mp >= 0 {
      forall j: nat | j <= |s| ensures ShiftsAt(p, s, d, j) {
        assert ShiftsAt(p, s, c, j);
      }
    }
  }

  lemma AtAny(goal: bool, p: string, s: string, c: Place, just: bool) returns (d: Place)
    requires OnTrack(goal, p, s, c) && c.m < |p| && p[c.m] == '?' && c.n < |s|
    requires just ==> c.ma >= 0 && Slack(p, s, c)
    ensures d == c.(m := c.m + 1, n := c.n + 1)
    ensures OnTrack(goal, p, s, d) && (just ==> Slack(p, s, d))
  {
    d := c.(m := c.m + 1, n := c.n + 1);
    ShiftOn(p, s, c, d);
    if c.ma >= 0 && c.mp < 0 && CommitsLater(p, c.ma, s, c.na) {
      var k := Chosen(p, c.m, s, c.n);
      assert Commits(p, d.m, s, k + 1);
    }
    if just {
      SlackAtAny(p, s, c, d);
    }
  }

  lemma SlackAtAny(p: string, s: string, c: Place, d: Place)
    requires InRange(p, s, c) && c.m < |p| && p[c.m] == '?' && c.n < |s|
    requires c.ma >= 0 && Slack(p, s, c)
    requires d == c.(m := c.m + 1, n := c.n + 1)
    ensures Slack(p, s, d)
  {
    forall j: nat | d.n <= j <= |s| && Ahead(p, d.m, s, d.mp, j)
      ensures Commits(p, d.ma, s, d.na + (j - d.n))
    {
      assert Ahead(p, c.m, s, c.mp, j - 1);
    }
  }

  lemma AtLiteral(goal: bool, p: string, s: string, c: Place) returns (d: Place)
    requires OnTrack(goal, p, s, c) && IsFixed(p, c.m) && TokenAt(p, c.m).Literal? && TakesAt(p, c.m, s, c.n)
    ensures d == c.(m := After(p, c.m), n := c.n + 1, mp := if s[c.n] == SPACE then NONE else c.mp)
    ensures OnTrack(goal, p, s, d)
  {
    d := c.(m := After(p, c.m), n := c.n + 1, mp := if s[c.n] == SPACE then NONE else c.mp);
    if s[c.n] != SPACE {
      ShiftOn(p, s, c, d);
    }
    if c.mp >= 0 && d.mp < 0 {
      Current(p, s, c);
    }
    if c.ma >= 0 && CommitsLater(p, c.ma, s, c.na) {
      Later(p, s, c);
      if c.mp < 0 {
        var k := Chosen(p, c.m, s, c.n);
        assert Commits(p, d.m, s, k + 1);
      } else if d.mp < 0 {
        var k :| c.n <= k <= |s| && Leads(p, c.m, s, k);
        assert Commits(p, d.m, s, k + 1);
      }
    }
  }

  /** What the current attempt cannot do at `m`. */
  ghost predicate Mismatch(p: string, s: string, c: Place)
    requires InRange(p, s, c)
  {
    if c.m == |p| then c.n < |s| else IsFixed(p, c.m) && !TakesAt(p, c.m, s, c.n)
  }

  lemma RetryPercent(goal: bool, p: string, s: string, c: Place) returns (d: Place)
    requires OnTrack(goal, p, s, c) && Mismatch(p, s, c) && c.n < |s|
    requires c.mp >= 0 && s[c.np] != SPACE
    ensures d == c.(m := c.mp, n := c.np + 1, np := c.np + 1)
    ensures OnTrack(goal, p, s, d)
  {
    d := c.(m := c.mp, n := c.np + 1, np := c.np + 1);
    assert Walk(p, c.mp, s, c.np).Failed?;
    if c.ma >= 0 && CommitsLater(p, c.ma, s, c.na) {
      var k :| c.np <= k <= |s| && Leads(p, c.mp, s, k);
      assert k >= c.np + 1;
    }
  }

  lemma RetryStar(goal: bool, p: string, s: string, c: Place) returns (d: Place)
    requires OnTrack(goal, p, s, c) && Mismatch(p, s, c) && c.n < |s|
    requires c.ma >= 0 && (c.mp >= 0 ==> s[c.np] == SPACE)
    ensures d == c.(m := c.ma, n := c.na + 1, na := c.na + 1, mp := NONE)
    ensures OnTrack(goal, p, s, d)
  {
    d := c.(m := c.ma, n := c.na + 1, na := c.na + 1, mp := NONE);
    NowOrLater(p, c.ma, s, c.na + 1);
  }

  lemma RetryNothing(goal: bool, p: string, s: string, c: Place)
    requires OnTrack(goal, p, s, c) && Mismatch(p, s, c) && c.n < |s|
    requires c.ma < 0 && (c.mp >= 0 ==> s[c.np] == SPACE)
    ensures !goal
  {
  }

  /** A token that takes nothing from `n` on closes every open attempt. */
  lemma Hopeless(goal: bool, p: string, s: string, c: Place)
    requires OnTrack(goal, p, s, c) && IsFixed(p, c.m)
    requires c.n == |s| || TokenAt(p, c.m).Bad?
    ensures !goal
  {
    assert !CommitsLater(p, c.m, s, c.n);
    if c.mp >= 0 {
      forall k | c.np <= k <= |s| ensures !Leads(p, c.mp, s, k) {
        assert ShiftsAt(p, s, c, k);
      }
      if FirstFit(p, c.mp, s, c.np) {
        FirstFitLeadsLater(p, c.mp, s, c.np);
      }
    }
    if c.ma >= 0 {
      NowOrLater(p, c.ma, s, c.na);
    }
  }

  /** At the end of the pattern: a match when the string ended too, or only `?` and `%` came after the last `*`. */
  lemma AtEnd(goal: bool, p: string, s: string, c: Place, just: bool)
    requires OnTrack(goal, p, s, c) && c.m == |p| && (c.n == |s| || just)
    requires just ==> c.ma >= 0 && Slack(p, s, c)
    ensures goal
  {
    if c.n == |s| {
      if c.mp >= 0 {
        Current(p, s, c);
      }
    } else {
      assert Ahead(p, c.m, s, c.mp, |s|);
      assert Commits(p, c.ma, s, c.na + (|s| - c.n));
    }
  }

  /** `_wild_match`: the number of literals matched, or -1. */
  method Scan(p: string, s: string) returns (r: int)
    ensures r == if Commits(p, 0, s, 0) then Literals(p, 0) else -1
  {
    ghost var goal, total := Commits(p, 0, s, 0), Literals(p, 0);
    ghost var lastp: int := NONE;
    var c := Place(0, 0, NONE, 0, NONE, 0);
    var just := false;
    assert OnTrack(goal, p, s, c);
    hide OnTrack, Slack, Counted, Literals;
    var pcount: nat, acount: nat, count: nat := 0, 0, 0;
    while true
      invariant InRange(p, s, c)
      invariant OnTrack(goal, p, s, c)
      invariant just ==> c.ma >= 0 && Slack(p, s, c)
      invariant Counted(total, p, c.m, count)
      invariant c.ma >= 0 ==> Counted(total, p, c.ma, acount)
      invariant c.mp >= 0 ==> Counted(total, p, c.mp, pcount)
      invariant c.mp <= lastp <= c.m && (c.mp >= 0 ==> lastp == c.mp)
      decreases |p| - c.ma, |s| - c.na, |p| - lastp, |s| - c.np, |p| - c.m
    {
      if c.m < |p| {
        CountedStep(total, p, c.m, count);
      }
      if c.m < |p| && p[c.m] == '*' {
        ghost var d := AtStar(goal, p, s, c);
        c := Place(c.m + 1, c.n, c.m + 1, c.n, NONE, c.np);
        just := true;
        acount := count;
        lastp := NONE;
      } else if c.m < |p| && p[c.m] == '%' {
        ghost var d := AtPercent(goal, p, s, c, just);
        c := c.(m := c.m + 1, mp := c.m + 1, np := c.n);
        pcount := count;
        lastp := c.mp;
      } else if c.m < |p| && p[c.m] == '?' {
        if c.n == |s| {
          Hopeless(goal, p, s, c);
          return -1;
        }
        ghost var d := AtAny(goal, p, s, c, just);
        c := c.(m := c.m + 1, n := c.n + 1);
      } else {
        var q := c.m;
        if c.m < |p| && p[c.m] == '\\' {
          q := c.m + 1;
          if q == |p| {
            Hopeless(goal, p, s, c);
            return -1;
          }
        }
        if q == |p| && (c.n == |s| || just) {
          AtEnd(goal, p, s, c, just);
          NothingLeft(total, p, count);
          return count;
        }
        just := false;
        if q < |p| && c.n < |s| && ToLower(p[q]) == ToLower(s[c.n]) {
          ghost var d := AtLiteral(goal, p, s, c);
          c := c.(m := q + 1, n := c.n + 1, mp := if s[c.n] == SPACE then NONE else c.mp);
          count := count + 1;
        } else if c.n == |s| {
          Hopeless(goal, p, s, c);
          return -1;
        } else if c.mp >= 0 && s[c.np] != SPACE {
          ghost var d := RetryPercent(goal, p, s, c);
          c := c.(m := c.mp, n := c.np + 1, np := c.np + 1);
          count := pcount;
        } else if c.ma >= 0 {
          ghost var d := RetryStar(goal, p, s, c);
          c := c.(m := c.ma, n := c.na + 1, na := c.na + 1, mp := NONE);
          count := acount;
          lastp := NONE;
        } else {
          RetryNothing(goal, p, s, c);
          return -1;
        }
      }
    }
  }

  // ---------------------------------------------------------------- soundness

  /** What the loop accepts is a match, for every pattern and every string. */
  lemma {:induction false} CommitsSound(p: string, m: nat, s: string, n: nat)
    requires m <= |p| && n <= |s| && Commits(p, m, s, n)
    ensures Matches(p, m, s, n)
    decreases |p| - m, 0, 0
  {
    if m < |p| && p[m] == '*' {
      var k := Chosen(p, m + 1, s, n);
      CommitsSound(p, m + 1, s, k);
      assert MatchesLater(p, m + 1, s, n);
    } else if m < |p| && p[m] == '%' {
      FirstFitSound(p, m + 1, s, n);
    } else if m < |p| {
      CommitsSound(p, After(p, m), s, n + 1);
    }
  }

  lemma {:induction false} FirstFitSound(p: string, m: nat, s: string, n: nat)
    requires m <= |p| && n <= |s| && FirstFit(p, m, s, n)
    ensures MatchesInWord(p, m, s, n)
    decreases |p| - m, 2, |s| - n
  {
    if Walk(p, m, s, n).Failed? {
      FirstFitSound(p, m, s, n + 1);
      var k :| n + 1 <= k <= |s| && NoSpace(s, n + 1, k) && Matches(p, m, s, k);
      assert NoSpace(s, n, k);
    } else {
      LeadsSound(p, m, s, n);
      assert NoSpace(s, n, n);
    }
  }

  lemma {:induction false} LeadsSound(p: string, m: nat, s: string, n: nat)
    requires m <= |p| && n <= |s| && Leads(p, m, s, n)
    ensures Matches(p, m, s, n)
    decreases |p| - m, 1, 0
  {
    match Walk(p, m, s, n)
    case Finished => WalkFinished(p, m, s, n);
    case Committed(m', n') =>
      CommitsSound(p, m', s, n');
      WalkBack(p, m, s, n);
  }

  lemma {:induction false} WalkFinished(p: string, m: nat, s: string, n: nat)
    requires m <= |p| && n <= |s| && Walk(p, m, s, n).Finished?
    ensures Matches(p, m, s, n)
    decreases |p| - m
  {
    if m < |p| {
      WalkFinished(p, After(p, m), s, n + 1);
    }
  }

  /** A walk takes exactly what the meaning of its tokens takes. */
  lemma {:induction false} WalkBack(p: string, m: nat, s: string, n: nat)
    requires m <= |p| && n <= |s| && Walk(p, m, s, n).Committed?
    ensures var w := Walk(p, m, s, n); Matches(p, m, s, n) <==> Matches(p, w.m, s, w.n)
    decreases |p| - m
  {
    if !IsWild(p, m) && !(TokenAt(p, m).Literal? && s[n] == SPACE) {
      WalkBack(p, After(p, m), s, n + 1);
    }
  }

  // ---------------------------------------------------------------- completeness

  predicate IsSpace(p: string, m: nat)
    requires IsFixed(p, m)
  {
    TokenAt(p, m).Literal? && TokenAt(p, m).c == SPACE
  }

  /** The fixed tokens from `m` on, up to a `*`, a `%`, a literal space or the end. */
  function Tokens(p: string, m: nat): (g: seq<Fixed>)
    requires m <= |p|
    ensures forall i :: 0 <= i < |g| && g[i].Literal? ==> g[i].c != SPACE
    decreases |p| - m
  {
    if m == |p| || IsWild(p, m) || IsSpace(p, m) then [] else [TokenAt(p, m)] + Tokens(p, After(p, m))
  }

  function TokensEnd(p: string, m: nat): (e: nat)
    requires m <= |p|
    ensures m <= e <= |p| && (IsFixed(p, e) ==> IsSpace(p, e))
    decreases |p| - m
  {
    if m == |p| || IsWild(p, m) || IsSpace(p, m) then m else TokensEnd(p, After(p, m))
  }

  /** There is a character for both. */
  predicate Agree(a: Fixed, b: Fixed) {
    !a.Bad? && !b.Bad? && (a.Literal? && b.Literal? ==> ToLower(a.c) == ToLower(b.c))
  }

  /** Moved along by `d`, the tokens still fit over themselves, and a `?` comes to stand behind the last of them. */
  predicate ShiftsBy(g: seq<Fixed>, d: nat) {
    1 <= d <= |g| && g[|g| - d].Any? && forall i :: d <= i < |g| ==> Agree(g[i], g[i - d])
  }

  /** From `m` on nothing but `?` and `%` comes before a `*`. */
  predicate Loose(p: string, m: nat)
    requires m <= |p|
    decreases |p| - m
  {
    m < |p| && (p[m] == '*' || ((p[m] == '%' || p[m] == '?') && Loose(p, m + 1)))
  }

  /** The place that the tokens from `m` on take matters, and is not settled by the first fit: a `%` comes after them,
      and a `?` of them can take the space that the `%` cannot; or a literal space does, and a `?` of them can take
      it. */
  predicate Blurred(p: string, m: nat)
    requires m <= |p|
  {
    var g, e := Tokens(p, m), TokensEnd(p, m);
    if e == |p| then false
    else if IsWild(p, e) then p[e] == '%' && !Loose(p, e + 1) && exists i :: 0 <= i < |g| && g[i].Any?
    else !Loose(p, After(p, e)) && exists d :: 1 <= d <= |g| && ShiftsBy(g, d)
  }

  /** Behind no `%` of `p[m..]` it is so. */
  predicate Sharp(p: string, m: nat)
    requires m <= |p|
    decreases |p| - m
  {
    if m == |p| then true
    else if p[m] == '%' then !Blurred(p, m + 1) && Sharp(p, m + 1)
    else if p[m] == '*' then Sharp(p, m + 1)
    else Sharp(p, After(p, m))
  }

  /** When the loop misses no match: the string is one word, or no `%` of the pattern is blurred. */
  predicate Complete(p: string, s: string) {
    NoSpace(s, 0, |s|) || Sharp(p, 0)
  }

  predicate Fits(g: seq<Fixed>, s: string, n: nat) {
    n + |g| <= |s| && forall i :: 0 <= i < |g| ==> Accepts(g[i], s[n + i])
  }

  lemma FitsFirst(t: Fixed, g: seq<Fixed>, s: string, n: nat)
    ensures Fits([t] + g, s, n) <==> n < |s| && Accepts(t, s[n]) && Fits(g, s, n + 1)
  {
    var all := [t] + g;
    if Fits(all, s, n) {
      assert Accepts(all[0], s[n + 0]);
      forall i | 0 <= i < |g| ensures Accepts(g[i], s[n + 1 + i]) {
        assert Accepts(all[i + 1], s[n + (i + 1)]);
      }
    }
  }

  lemma {:induction false} WalkTokens(p: string, m: nat, s: string, n: nat)
    requires m <= |p| && n <= |s|
    ensures var g, e := Tokens(p, m), TokensEnd(p, m);
      var at := n + |g|;
      Walk(p, m, s, n) ==
        if !Fits(g, s, n) then Failed
        else if e == |p| then (if at == |s| then Finished else Failed)
        else if IsWild(p, e) then Committed(e, at)
        else if at < |s| && s[at] == SPACE then Committed(After(p, e), at + 1)
        else Failed
    decreases |p| - m
  {
    if IsFixed(p, m) && !IsSpace(p, m) {
      FitsFirst(TokenAt(p, m), Tokens(p, After(p, m)), s, n);
      if TakesAt(p, m, s, n) {
        WalkTokens(p, After(p, m), s, n + 1);
      }
      hide Fits;
    }
  }

  lemma {:induction false} MatchTokens(p: string, m: nat, s: string, n: nat)
    requires m <= |p| && n <= |s|
    ensures var g, e := Tokens(p, m), TokensEnd(p, m);
      Matches(p, m, s, n) <==> Fits(g, s, n) && Matches(p, e, s, n + |g|)
    decreases |p| - m
  {
    if IsFixed(p, m) && !IsSpace(p, m) {
      FitsFirst(TokenAt(p, m), Tokens(p, After(p, m)), s, n);
      if TakesAt(p, m, s, n) {
        MatchTokens(p, After(p, m), s, n + 1);
      }
      hide Fits;
    }
  }

  lemma {:induction false} SharpTokens(p: string, m: nat)
    requires m <= |p| && Sharp(p, m)
    ensures var e := TokensEnd(p, m); Sharp(p, e) && (IsFixed(p, e) ==> Sharp(p, After(p, e)))
    decreases |p| - m
  {
    if IsFixed(p, m) && !IsSpace(p, m) {
      SharpTokens(p, After(p, m));
    }
  }

  /** Tokens without a `?` take no space. */
  lemma LiteralsTakeNone(g: seq<Fixed>, s: string, n: nat)
    requires Fits(g, s, n) && forall i :: 0 <= i < |g| ==> !g[i].Any? && (g[i].Literal? ==> g[i].c != SPACE)
    ensures NoSpace(s, n, n + |g|)
  {
    forall i | n <= i < n + |g| ensures s[i] != SPACE {
      assert Accepts(g[i - n], s[n + (i - n)]);
    }
  }

  /** Two fits with a space behind the first: the tokens can be moved along. */
  lemma TwoFits(g: seq<Fixed>, s: string, j: nat, k: nat)
    requires Fits(g, s, j) && Fits(g, s, k) && j < k && NoSpace(s, j, k)
    requires j + |g| < |s| && s[j + |g|] == SPACE
    requires forall i :: 0 <= i < |g| && g[i].Literal? ==> g[i].c != SPACE
    ensures k - j <= |g| && ShiftsBy(g, k - j)
  {
    var d := k - j;
    assert Accepts(g[|g| - d], s[k + (|g| - d)]);
    forall i | d <= i < |g| ensures Agree(g[i], g[i - d]) {
      assert Accepts(g[i], s[j + i]) && Accepts(g[i - d], s[k + (i - d)]);
    }
  }

  /** Where it does not matter, it might as well be earlier. */
  lemma {:induction false} LooseEarlier(p: string, m: nat, s: string, n: nat, k: nat)
    requires m <= |p| && n <= k <= |s| && Loose(p, m) && Matches(p, m, s, k)
    ensures Matches(p, m, s, n)
    decreases |p| - m
  {
    if p[m] == '*' {
      var i :| k <= i <= |s| && Matches(p, m + 1, s, i);
      assert MatchesLater(p, m + 1, s, n);
    } else if p[m] == '%' {
      var i :| k <= i <= |s| && NoSpace(s, k, i) && Matches(p, m + 1, s, i);
      LooseEarlier(p, m + 1, s, n, i);
      assert NoSpace(s, n, n);
    } else {
      LooseEarlier(p, m + 1, s, n + 1, k + 1);
    }
  }

  /** The first fit at `j` leads on as the match at `k` does. */
  lemma LeadsOn(p: string, m: nat, s: string, j: nat, k: nat)
    requires m <= |p| && j <= k <= |s| && NoSpace(s, j, k) && Matches(p, m, s, k)
    requires NoSpace(s, 0, |s|) || !Blurred(p, m)
    requires Walk(p, m, s, j).Committed?
    ensures var w := Walk(p, m, s, j); Matches(p, w.m, s, w.n)
  {
    var g, e := Tokens(p, m), TokensEnd(p, m);
    WalkTokens(p, m, s, j);
    MatchTokens(p, m, s, k);
    var at, to := j + |g|, k + |g|;
    if IsFixed(p, e) {
      if Loose(p, After(p, e)) {
        LooseEarlier(p, After(p, e), s, at + 1, to + 1);
      } else if j < k && !NoSpace(s, 0, |s|) {
        TwoFits(g, s, j, k);
      }
    } else if p[e] == '*' || Loose(p, e + 1) {
      LooseEarlier(p, e, s, at, to);
    } else {
      if !NoSpace(s, 0, |s|) {
        LiteralsTakeNone(g, s, k);
      }
      var i :| to <= i <= |s| && NoSpace(s, to, i) && Matches(p, e + 1, s, i);
      assert NoSpace(s, at, i);
    }
  }

  /** A complete search: from `j` the first fit is found at or before the place `k` where a match starts. */
  lemma {:induction false} FitFound(p: string, m: nat, s: string, j: nat, k: nat)
    requires m <= |p| && j <= k <= |s| && NoSpace(s, j, k) && Matches(p, m, s, k)
    requires NoSpace(s, 0, |s|) || (!Blurred(p, m) && Sharp(p, m))
    ensures FirstFit(p, m, s, j)
    decreases |p| - m, 1, k - j
  {
    match Walk(p, m, s, j)
    case Failed =>
      if j == k {
        WalkTokens(p, m, s, k);
        MatchTokens(p, m, s, k);
        assert false;
      } else {
        FitFound(p, m, s, j + 1, k);
      }
    case Finished =>
    case Committed(m', n') =>
      LeadsOn(p, m, s, j, k);
      WalkTokens(p, m, s, j);
      if Sharp(p, m) {
        SharpTokens(p, m);
      }
      hide Blurred;
      MatchCommits(p, m', s, n');
  }

  lemma {:induction false} MatchCommits(p: string, m: nat, s: string, n: nat)
    requires m <= |p| && n <= |s| && Matches(p, m, s, n)
    requires NoSpace(s, 0, |s|) || Sharp(p, m)
    ensures Commits(p, m, s, n)
    decreases |p| - m, 0, 0
  {
    if m < |p| && p[m] == '*' {
      var k :| n <= k <= |s| && Matches(p, m + 1, s, k);
      MatchCommits(p, m + 1, s, k);
      assert CommitsLater(p, m + 1, s, n);
    } else if m < |p| && p[m] == '%' {
      var k :| n <= k <= |s| && NoSpace(s, n, k) && Matches(p, m + 1, s, k);
      FitFound(p, m + 1, s, n, k);
    } else if m < |p| {
      MatchCommits(p, After(p, m), s, n + 1);
    }
  }

  // ---------------------------------------------------------------- results

  /** `wild_match`. Whatever it accepts is a match, and it misses none when `Complete` says so. */
  method WildMatch(p: string, s: string) returns (r: nat)
    ensures r != 0 <==> Commits(p, 0, s, 0)
    ensures r != 0 ==> r == 1 + Literals(p, 0)
    ensures r != 0 ==> Matches(p, 0, s, 0)
    ensures Complete(p, s) && Matches(p, 0, s, 0) ==> r != 0
  {
    var count := Scan(p, s);
    r := count + 1;
    if r != 0 {
      CommitsSound(p, 0, s, 0);
    } else if Complete(p, s) && Matches(p, 0, s, 0) {
      MatchCommits(p, 0, s, 0);
    }
  }

  /** A pattern without `%` is never blurred. */
  lemma {:induction false} NoPercentSharp(p: string, m: nat)
    requires m <= |p| && '%' !in p[m..]
    ensures Sharp(p, m)
    decreases |p| - m
  {
    if m < |p| {
      assert p[m] in p[m..];
      var k := if p[m] == '*' then m + 1 else After(p, m);
      assert p[k..] == p[m..][k - m..];
      NoPercentSharp(p, k);
    }
  }

  /** A `?` ahead of a literal space: the first fit takes the `x` for the `?` and cannot go back. */
  lemma {:induction false} LostAtSpace()
    ensures Matches("%? c", 0, "x  c", 0) && !Commits("%? c", 0, "x  c", 0)
  {
    var p, s := "%? c", "x  c";
    assert Matches(p, 4, s, 4);
    assert Matches(p, 3, s, 3);
    assert Matches(p, 2, s, 2);
    assert Matches(p, 1, s, 1);
    assert NoSpace(s, 0, 1);
    assert Walk(p, 2, s, 1) == Committed(3, 2);
    assert Walk(p, 1, s, 0) == Committed(3, 2);
    assert !Commits(p, 3, s, 2);
  }

  /** A `?` ahead of a second `%`: the same loss without any literal. */
  lemma {:induction false} LostAtPercent()
    ensures Matches("%?%", 0, "a b", 0) && !Commits("%?%", 0, "a b", 0)
  {
    var p, s := "%?%", "a b";
    assert Matches(p, 3, s, 3);
    assert NoSpace(s, 2, 3);
    assert Matches(p, 2, s, 2);
    assert Matches(p, 1, s, 1);
    assert NoSpace(s, 0, 1);
    assert Walk(p, 1, s, 0) == Walk(p, 2, s, 1) == Committed(2, 1);
    assert Walk(p, 3, s, 1).Failed?;
    assert !FirstFit(p, 3, s, 1);
    assert !Commits(p, 2, s, 1);
  }
}
