/** Flag strings: `sortstring` of misc.c, `validateflags` and `deltaflags` of ds.c. */
module Flags {
  import opened Chars
  import opened Multisets

  const FLAGLEN := 64
  const FLAGS_GLOBAL := "dfglmnopqsS"
  const FLAGS_CHANNEL := "!aAbcDefFGklLmMnNoOpPqrRsSuUtTvVwxX"

  // ---------------------------------------------------------------- order

  /** By letter, upper case before lower case. */
  function Key(c: char): int {
    2 * (ToLower(c) as int) + if IsUpper(c) then 0 else 1
  }

  lemma KeyInjective(a: char, b: char)
    ensures Key(a) == Key(b) <==> a == b
  {
  }

  predicate InOrder(s: string) {
    forall i, j :: 0 <= i < j < |s| ==> Key(s[i]) <= Key(s[j])
  }

  /** Which of two characters comes first, in plain terms: by letter as in lower case, and of one letter upper case. */
  lemma {:induction false} OrderMeans(a: char, b: char)
    ensures Key(a) < Key(b)
      <==> var x := if 'A' <= a <= 'Z' then a as int + 32 else a as int;
           var y := if 'A' <= b <= 'Z' then b as int + 32 else b as int;
           x < y || (x == y && 'A' <= a <= 'Z' && !('A' <= b <= 'Z'))
  {
  }

  predicate Distinct(s: string) {
    forall i, j :: 0 <= i < j < |s| ==> s[i] != s[j]
  }

  predicate Canonical(s: string) {
    InOrder(s) && Distinct(s)
  }

  function Letters(s: string): set<char> {
    set c | c in s
  }

  lemma HasLetter(s: string)
    requires s != ""
    ensures Letters(s) != {}
  {
    assert s[0] in Letters(s);
  }

  /** A set of flags has one canonical string. */
  lemma {:induction false} CanonicalUnique(a: string, b: string)
    requires Canonical(a) && Canonical(b) && Letters(a) == Letters(b)
    ensures a == b
  {
    if a == "" {
      if b != "" {
        HasLetter(b);
      }
    } else {
      assert a[0] in Letters(b) && (b != "" ==> b[0] in Letters(a));
      KeyInjective(a[0], b[0]);
      forall c | true ensures c in a[1..] <==> c in b[1..] {
        assert c in a[1..] <==> c in Letters(a) && c != a[0];
        assert c in b[1..] <==> c in Letters(b) && c != b[0];
      }
      CanonicalUnique(a[1..], b[1..]);
    }
  }

  // ---------------------------------------------------------------- sortstring

  /** Whether the inner loop leaves two neighbours alone. */
  predicate Rests(c1: char, c2: char) {
    ToLower(c1) < ToLower(c2) || (ToLower(c1) == ToLower(c2) && IsUpper(c1))
  }

  lemma RestsByKey(c1: char, c2: char)
    ensures Rests(c1, c2) ==> Key(c1) <= Key(c2)
    ensures !Rests(c1, c2) ==> Key(c2) <= Key(c1)
  {
  }

  method SortString(a: array<char>)
    modifies a
    ensures InOrder(a[..]) && multiset(a[..]) == multiset(old(a[..]))
  {
    var times := a.Length - 1;
    ghost var done := 0;
    while times >= 0
      invariant -1 <= times && done == a.Length - 1 - times
      invariant multiset(a[..]) == multiset(old(a[..]))
      invariant Settled(a[..], done)
    {
      SmallestFirst(a, done);
      times, done := times - 1, done + 1;
    }
  }

  /** The first `n` letters are in order and none of them belongs behind any later one. */
  predicate Settled(s: string, n: nat) {
    n <= |s| && forall i, j :: 0 <= i < n && i < j < |s| ==> Key(s[i]) <= Key(s[j])
  }

  /** Two neighbours after the comparison in the inner loop. */
  function Eased(s: string, pos: nat): (r: string)
    requires 0 < pos < |s|
    ensures |r| == |s|
  {
    if Rests(s[pos - 1], s[pos]) then s else s[pos - 1 := s[pos]][pos := s[pos - 1]]
  }

  lemma EasedSame(s: string, pos: nat)
    requires 0 < pos < |s|
    ensures multiset(Eased(s, pos)) == multiset(s)
  {
  }

  /** During a pass: the letter at `pos` is the least from there on, once `pos` has come down to the unsorted part. */
  predicate Passing(s: string, n: nat, pos: nat) {
    && pos < |s| && Settled(s, n)
    && (if pos >= n then forall j :: pos < j < |s| ==> Key(s[pos]) <= Key(s[j]) else Settled(s, n + 1))
  }

  lemma PassingOn(s: string, n: nat, pos: nat)
    requires Passing(s, n, pos) && pos > 0 && n < |s|
    ensures Passing(Eased(s, pos), n, pos - 1)
  {
    var r := Eased(s, pos);
    RestsByKey(s[pos - 1], s[pos]);
    if pos > n {
      forall j | pos - 1 < j < |r| ensures Key(r[pos - 1]) <= Key(r[j]) {
        assert j > pos ==> r[j] == s[j];
      }
      forall i, j | 0 <= i < n && i < j < |r| ensures Key(r[i]) <= Key(r[j]) {
        assert r[i] == s[i];
      }
    } else {
      assert Settled(s, n + 1);
      if !Rests(s[pos - 1], s[pos]) {
        assert Key(s[pos - 1]) == Key(s[pos]);
        KeyInjective(s[pos - 1], s[pos]);
        assert r == s;
      }
    }
  }

  lemma PassingDone(s: string, n: nat)
    requires Passing(s, n, 0) && n < |s|
    ensures Settled(s, n + 1)
  {
  }

  /** The inner loop: one pass from the end to the front. */
  method SmallestFirst(a: array<char>, ghost n: nat)
    requires Settled(a[..], n) && n < a.Length
    modifies a
    ensures Settled(a[..], n + 1) && multiset(a[..]) == multiset(old(a[..]))
  {
    var pos := a.Length - 1;
    ghost var s := a[..];
    assert Passing(s, n, pos);
    hide Passing, Eased, Settled;
    while pos > 0
      invariant 0 <= pos < a.Length && s == a[..]
      invariant multiset(s) == multiset(old(a[..]))
      invariant Passing(s, n, pos)
    {
      PassingOn(s, n, pos);
      EasedSame(s, pos);
      s := Eased(s, pos);
      Compare(a, pos);
      pos := pos - 1;
    }
    PassingDone(s, n);
  }

  method Compare(a: array<char>, pos: nat)
    requires 0 < pos < a.Length
    modifies a
    ensures a[..] == Eased(old(a[..]), pos)
  {
    if !Rests(a[pos - 1], a[pos]) {
      a[pos - 1], a[pos] := a[pos], a[pos - 1];
    }
  }

  // ---------------------------------------------------------------- validateflags

  /** The flags that belong to `allowed`, each where it first stands. */
  function Validated(flags: string, allowed: string, to: string): string {
    if flags == "" then to
    else if flags[0] in allowed && flags[0] !in to then Validated(flags[1..], allowed, to + [flags[0]])
    else Validated(flags[1..], allowed, to)
  }

  method ValidateFlags(flags: string, allowed: string) returns (to: string)
    ensures to == Validated(flags, allowed, "")
  {
    to := "";
    var i := 0;
    assert flags[0..] == flags;
    while i < |flags|
      invariant 0 <= i <= |flags|
      invariant Validated(flags, allowed, "") == Validated(flags[i..], allowed, to)
    {
      if flags[i] in allowed && flags[i] !in to {
        to := to + [flags[i]];
      }
      i := i + 1;
    }
  }

  /** Validation keeps exactly the known flags, each once. */
  lemma {:induction false} ValidatedKeeps(flags: string, allowed: string, to: string)
    requires Distinct(to) && forall c :: c in to ==> c in allowed
    ensures var r := Validated(flags, allowed, to);
      && Distinct(r)
      && (forall c :: c in r <==> c in to || (c in flags && c in allowed))
    decreases flags
  {
    if flags != "" {
      var c := flags[0];
      assert forall d :: d in flags <==> d == c || d in flags[1..] by {
        assert flags == [c] + flags[1..];
      }
      if c in allowed && c !in to {
        ValidatedKeeps(flags[1..], allowed, to + [c]);
      } else {
        ValidatedKeeps(flags[1..], allowed, to);
      }
    }
  }

  // ---------------------------------------------------------------- deltaflags

  /** The letters of `s` that are (or are not) in `t`, last one first. */
  function Picked(s: string, t: string, present: bool): string {
    if s == "" then ""
    else Picked(s[1..], t, present) + (if (s[0] in t) == present then [s[0]] else "")
  }

  lemma {:induction false} PickedLetters(s: string, t: string, present: bool)
    requires Distinct(s)
    ensures var r := Picked(s, t, present);
      Distinct(r) && |r| <= |s| && forall c :: c in r <==> c in s && (c in t) == present
  {
    if s != "" {
      PickedLetters(s[1..], t, present);
      assert s == [s[0]] + s[1..];
      var rest := Picked(s[1..], t, present);
      forall i | 0 <= i < |rest| ensures rest[i] != s[0] {
        assert rest[i] in s[1..];
      }
    }
  }

  /** Different letters of an alphabet are no more than the alphabet. */
  lemma {:induction false} DistinctFits(s: string, allowed: string)
    requires Distinct(s) && forall c :: c in s ==> c in allowed
    ensures |s| <= |allowed|
    decreases s
  {
    if s != "" {
      var c := s[0];
      assert c in s;
      var k :| 0 <= k < |allowed| && allowed[k] == c;
      var less := allowed[..k] + allowed[k + 1..];
      forall d | d in s[1..] ensures d in less {
        var i :| 0 <= i < |s[1..]| && s[1..][i] == d;
        assert s[i + 1] == d && d != c && d in s;
        var j :| 0 <= j < |allowed| && allowed[j] == d;
        assert less[if j < k then j else j - 1] == d;
      }
      DistinctFits(s[1..], less);
    }
  }

  /** The flags that a change would add or take away. */
  function News(flags: string, delta: string, polar: char): string {
    if polar == '+' then Picked(delta, flags, false)
    else if polar == '-' then Picked(delta, flags, true)
    else ""
  }

  /** The new flags before they are sorted. */
  function Merged(flags: string, delta: string, polar: char): string {
    var news := News(flags, delta, polar);
    var kept := Picked(flags, if polar == '-' then news else "", false);
    if polar == '+' then
      kept + (if |kept| + |news| <= FLAGLEN then news else if |kept| <= FLAGLEN then news[..FLAGLEN - |kept|] else "")
    else kept
  }

  /** What `deltaflags` makes of `flags`. */
  ghost predicate Becomes(flags: string, delta: string, polar: char, r: string) {
    if News(flags, delta, polar) == "" then r == flags
    else InOrder(r) && multiset(r) == multiset(Merged(flags, delta, polar))
  }

  lemma {:induction false} PickedSize(s: string, t: string, present: bool)
    ensures |Picked(s, t, present)| <= |s|
  {
    if s != "" {
      PickedSize(s[1..], t, present);
    }
  }

  /** The loops of `deltaflags` run from the end of a string to its front. */
  method Pick(s: string, t: string, present: bool) returns (r: string)
    ensures r == Picked(s, t, present)
  {
    r := "";
    var pos := |s| - 1;
    while pos >= 0
      invariant -1 <= pos < |s|
      invariant r == Picked(s[pos + 1..], t, present)
    {
      assert s[pos..] == [s[pos]] + s[pos + 1..];
      if (s[pos] in t) == present {
        r := r + [s[pos]];
      }
      pos := pos - 1;
    }
    assert s[0..] == s;
  }

  /** The string sorted in a buffer of its own. */
  method InBuffer(s: string) returns (r: string)
    ensures InOrder(r) && multiset(r) == multiset(s) && |r| == |s|
  {
    var buffer := new char[|s|](i requires 0 <= i < |s| => s[i]);
    assert buffer[..] == s;
    SortString(buffer);
    MultisetSize(buffer[..], s);
    r := buffer[..];
  }

  /** The flags of a channel, or of the bot. */
  class FlagField {
    var flags: string

    constructor (flags: string)
      ensures this.flags == flags
    {
      this.flags := flags;
    }

    /** `deltaflags`; longer strings overrun the original's buffers. */
    method DeltaFlags(delta: string, polar: char) returns (changed: bool)
      requires |delta| <= FLAGLEN && |flags| <= FLAGLEN
      modifies this
      ensures Becomes(old(flags), delta, polar, flags) && |flags| <= FLAGLEN
      ensures changed <==> News(old(flags), delta, polar) != ""
    {
      hide Picked, InOrder;
      var news := "";
      if polar == '+' {
        news := Pick(delta, flags, false);
      } else if polar == '-' {
        news := Pick(delta, flags, true);
      }
      if news == "" {
        return false;
      }
      PickedSize(flags, if polar == '-' then news else "", false);
      var merged := Pick(flags, if polar == '-' then news else "", false);
      if polar == '+' {
        merged := merged + (if |merged| + |news| <= FLAGLEN then news else news[..FLAGLEN - |merged|]);
      }
      flags := InBuffer(merged);
      return true;
    }
  }

  lemma MultisetSize(a: string, b: string)
    requires multiset(a) == multiset(b)
    ensures |a| == |b|
  {
    assert |multiset(a)| == |a| && |multiset(b)| == |b|;
  }

  // ---------------------------------------------------------------- set algebra

  /** Flags as the commands keep them: canonical, and out of an alphabet that fits the buffers. */
  predicate Proper(flags: string, allowed: string) {
    Canonical(flags) && |allowed| <= FLAGLEN && forall c :: c in flags ==> c in allowed
  }

  lemma SameLetters(a: string, b: string)
    requires multiset(a) == multiset(b)
    ensures Letters(a) == Letters(b) && (Distinct(b) ==> Distinct(a))
  {
    forall c | true ensures c in a <==> c in b {
      assert c in a <==> c in multiset(a);
      assert c in b <==> c in multiset(b);
    }
    if Distinct(b) {
      forall i, j | 0 <= i < j < |a| ensures a[i] != a[j] {
        if a[i] == a[j] {
          TwiceIn(a, i, j);
          OnceIn(b, a[i]);
        }
      }
    }
  }

  lemma {:induction false} OnceIn(s: string, c: char)
    requires Distinct(s)
    ensures multiset(s)[c] <= 1
  {
    if s != "" {
      OnceIn(s[1..], c);
      assert s == [s[0]] + s[1..];
      forall k | 0 <= k < |s[1..]| ensures s[1..][k] != s[0] {
        assert s[1..][k] == s[k + 1];
      }
    }
  }

  /** What a change means: union for `+`, difference for `-`, and nothing changes exactly when nothing is new. */
  function Change(flags: set<char>, delta: set<char>, polar: char): set<char> {
    if polar == '+' then flags + delta else if polar == '-' then flags - delta else flags
  }

  /** Two strings of different letters without a common one. */
  lemma DistinctJoin(a: string, b: string)
    requires Distinct(a) && Distinct(b) && forall c :: c in a ==> c !in b
    ensures Distinct(a + b) && Letters(a + b) == Letters(a) + Letters(b)
  {
    var s := a + b;
    forall i, j | 0 <= i < j < |s| ensures s[i] != s[j] {
      if i < |a| <= j {
        assert s[i] in a && s[j] == b[j - |a|] && s[j] in b;
      }
    }
  }

  /** What the unsorted flags hold when something is added. */
  lemma MergedUnion(flags: string, delta: string, allowed: string)
    requires Proper(flags, allowed) && Distinct(delta) && forall c :: c in delta ==> c in allowed
    ensures var merged := Merged(flags, delta, '+');
      Distinct(merged) && Letters(merged) == Letters(flags) + Letters(delta)
  {
    PickedLetters(delta, flags, false);
    PickedLetters(flags, "", false);
    var kept, news := Picked(flags, "", false), Picked(delta, flags, false);
    DistinctJoin(kept, news);
    forall c | c in kept + news ensures c in allowed {
      assert c in Letters(kept + news);
    }
    DistinctFits(kept + news, allowed);
    assert |kept + news| == |kept| + |news|;
    assert Merged(flags, delta, '+') == kept + news;
    assert Letters(kept) == Letters(flags);
    assert Letters(flags) + Letters(news) == Letters(flags) + Letters(delta);
  }

  /** What the unsorted flags hold when something is taken away. */
  lemma MergedDifference(flags: string, delta: string)
    requires Distinct(flags) && Distinct(delta)
    ensures var merged := Merged(flags, delta, '-');
      Distinct(merged) && Letters(merged) == Letters(flags) - Letters(delta)
  {
    PickedLetters(delta, flags, true);
    PickedLetters(flags, Picked(delta, flags, true), false);
  }

  /** There is something new exactly when the change changes the set. */
  lemma NewsChange(flags: string, delta: string, polar: char)
    requires Distinct(delta)
    ensures News(flags, delta, polar) == "" <==> Change(Letters(flags), Letters(delta), polar) == Letters(flags)
  {
    if polar == '+' || polar == '-' {
      PickedLetters(delta, flags, polar == '-');
      var news := News(flags, delta, polar);
      if news != "" {
        var c := news[0];
        assert c in news && c in Letters(delta);
        assert c in Letters(flags) <==> polar == '-';
      } else {
        forall c | c in delta ensures (c in flags) == (polar == '+') {
          assert c !in news;
        }
      }
    }
  }

  /** On proper flags and validated changes `deltaflags` is set algebra with a canonical result. */
  lemma {:induction false} DeltaIsChange(flags: string, delta: string, polar: char, allowed: string, r: string)
    requires Proper(flags, allowed) && Distinct(delta) && forall c :: c in delta ==> c in allowed
    requires Becomes(flags, delta, polar, r)
    ensures Proper(r, allowed) && Letters(r) == Change(Letters(flags), Letters(delta), polar)
    ensures News(flags, delta, polar) == "" <==> r == flags
  {
    NewsChange(flags, delta, polar);
    if News(flags, delta, polar) != "" {
      if polar == '+' {
        MergedUnion(flags, delta, allowed);
      } else {
        MergedDifference(flags, delta);
      }
      SameLetters(r, Merged(flags, delta, polar));
      assert Letters(r) == Change(Letters(flags), Letters(delta), polar);
      forall c | c in r ensures c in allowed {
        assert c in Letters(r);
        assert c in flags || c in delta;
      }
    }
  }

  /** Adding flags that were not set and then removing them gives back the identical string. */
  lemma {:induction false} AddThenRemove(flags: string, delta: string, allowed: string, added: string, r: string)
    requires Proper(flags, allowed) && Distinct(delta) && forall c :: c in delta ==> c in allowed && c !in flags
    requires Becomes(flags, delta, '+', added) && Becomes(added, delta, '-', r)
    ensures r == flags
  {
    DeltaIsChange(flags, delta, '+', allowed, added);
    DeltaIsChange(added, delta, '-', allowed, r);
    assert Letters(r) == Letters(flags);
    CanonicalUnique(r, flags);
  }

  /** From the typed text to the stored flags: whatever is typed, the change is that of its known letters. */
  lemma {:induction false} TypedChange(flags: string, typed: string, polar: char, allowed: string, r: string)
    requires allowed == FLAGS_GLOBAL || allowed == FLAGS_CHANNEL
    requires Proper(flags, allowed) && Becomes(flags, Validated(typed, allowed, ""), polar, r)
    ensures |Validated(typed, allowed, "")| <= FLAGLEN
    ensures Proper(r, allowed) && Letters(r) == Change(Letters(flags), Letters(typed) * Letters(allowed), polar)
  {
    ValidatedKeeps(typed, allowed, "");
    var delta := Validated(typed, allowed, "");
    DistinctFits(delta, allowed);
    DeltaIsChange(flags, delta, polar, allowed, r);
    assert Letters(delta) == Letters(typed) * Letters(allowed);
  }
}
