/** The condition that `deltopic` of ds.c builds out of topic numbers in a buffer of 512 characters, and the rows that
    MySQL picks by it. */
module TopicClauses {
  import opened Chars

  const CLAUSE_MAX := 512  // WRITE_BUFFER_LENGTH

  // ---------------------------------------------------------------- numbers

  predicate IsDigit(c: char) {
    '0' <= c <= '9'
  }

  predicate AllDigits(s: string) {
    forall i :: 0 <= i < |s| ==> IsDigit(s[i])
  }

  /** `%d` */
  function Decimal(n: nat): (r: string)
    ensures r != "" && AllDigits(r)
  {
    var last := [(48 + n % 10) as char];
    if n < 10 then last else Decimal(n / 10) + last
  }

  function Number(s: string): nat
    requires AllDigits(s)
  {
    if s == "" then 0 else 10 * Number(s[..|s| - 1]) + (s[|s| - 1] as int - 48)
  }

  lemma {:induction false} NumberOfDecimal(n: nat)
    ensures Number(Decimal(n)) == n
  {
    var d := Decimal(n);
    if n < 10 {
      assert d[..0] == "";
    } else {
      NumberOfDecimal(n / 10);
      assert d[..|d| - 1] == Decimal(n / 10);
    }
  }

  /** Fewer digits, a smaller number. */
  lemma {:induction false} FewerDigits(s: string, k: nat)
    requires AllDigits(s) && k < |s| && s[0] != '0'
    ensures Number(s[..k]) < Number(s)
  {
    var init := s[..|s| - 1];
    if k == |s| - 1 {
      if k == 0 {
        assert s == [s[0]] && init == "";
      } else {
        FewerDigits(init, 0);
        assert init[..0] == "";
      }
    } else {
      FewerDigits(init, k);
      assert init[..k] == s[..k];
    }
  }

  lemma {:induction false} NoLeadingZero(n: nat)
    requires n > 0
    ensures Decimal(n)[0] != '0'
  {
    if n >= 10 {
      NoLeadingZero(n / 10);
    }
  }

  // ---------------------------------------------------------------- the text

  function Item(n: nat): string {
    "pos = " + Decimal(n)
  }

  function Condition(ns: seq<nat>): string {
    if ns == [] then "" else if |ns| == 1 then Item(ns[0]) else Item(ns[0]) + " OR " + Condition(ns[1..])
  }

  lemma {:induction false} ConditionLast(ns: seq<nat>, n: nat)
    ensures Condition(ns + [n]) == if ns == [] then Item(n) else Condition(ns) + (" OR " + Item(n))
  {
    if |ns| > 0 {
      ConditionLast(ns[1..], n);
      assert (ns + [n])[1..] == ns[1..] + [n];
      if |ns| == 1 {
        assert ns[1..] == [];
      } else {
        var a, b := Item(ns[0]) + " OR ", Condition(ns[1..]);
        assert a + (b + (" OR " + Item(n))) == (a + b) + (" OR " + Item(n));
      }
    }
  }

  // ---------------------------------------------------------------- how it is read

  /** The rows that a condition picks: every row, or those with one of these numbers. MySQL refuses a broken one. */
  datatype Reading = Broken | Picks(every: bool, which: set<int>)

  function Either(a: Reading, b: Reading): Reading {
    if a.Broken? || b.Broken? then Broken else Picks(a.every || b.every, a.which + b.which)
  }

  function DigitsEnd(s: string, i: nat): (e: nat)
    requires i <= |s|
    ensures i <= e <= |s| && AllDigits(s[i..e]) && (e < |s| ==> !IsDigit(s[e]))
    decreases |s| - i
  {
    if i == |s| || !IsDigit(s[i]) then i
    else
      var e := DigitsEnd(s, i + 1);
      assert s[i..e] == [s[i]] + s[i + 1..e];
      e
  }

  /** Comparisons of `pos` with a number, and `pos` by itself, which is true of every row, as no number is 0. */
  function Read(s: string): Reading
    decreases |s|
  {
    if "pos = " <= s && DigitsEnd(s, 6) > 6 then
      var e := DigitsEnd(s, 6);
      Rest(s[e..], Picks(false, {Number(s[6..e])}))
    else if "pos" <= s then Rest(s[3..], Picks(true, {}))
    else Broken
  }

  function Rest(s: string, first: Reading): Reading
    decreases |s|
  {
    if s == "" || s == " " then first
    else if " OR " <= s then Either(first, Read(s[4..]))
    else Broken
  }

  function UpTo(n: nat): set<int> {
    if n == 0 then {} else UpTo(n - 1) + {n}
  }

  /** The rows picked of those numbered 1 to `n`. */
  function Picked(r: Reading, n: nat): set<int>
    requires r.Picks?
  {
    if r.every then UpTo(n) else r.which
  }

  // ---------------------------------------------------------------- a whole condition, and one that is cut

  function NumbersIn(ns: seq<nat>): set<int> {
    set n | n in ns
  }

  /** How many items stand whole in the first `m` characters. */
  function Whole(ns: seq<nat>, m: nat): (k: nat)
    ensures k <= |ns|
  {
    if ns == [] || m < |Item(ns[0])| then 0
    else if m < |Item(ns[0])| + 4 then 1
    else 1 + Whole(ns[1..], m - |Item(ns[0])| - 4)
  }

  /** `k` items are whole, and `r` characters of " OR " and the next item are there as well. */
  function CutReading(ns: seq<nat>, k: nat, r: nat): Reading
    requires k < |ns| && r < 4 + |Item(ns[k])|
  {
    if r <= 1 then Picks(false, NumbersIn(ns[..k]))
    else if r == 7 || r == 8 then Picks(true, NumbersIn(ns[..k]))
    else if r <= 10 then Broken
    else Picks(false, NumbersIn(ns[..k]) + {Shown(ns[k], r - 10)})
  }

  /** The number that the first `d` digits show. */
  function Shown(n: nat, d: nat): nat
    requires d <= |Decimal(n)|
  {
    Number(Decimal(n)[..d])
  }

  lemma {:induction false} WholeIsRead(ns: seq<nat>)
    requires ns != []
    ensures Read(Condition(ns)) == Picks(false, NumbersIn(ns))
  {
    if |ns| == 1 {
      ReadsItem(ns[0], "");
      assert Item(ns[0]) + "" == Item(ns[0]);
    } else {
      var more := Condition(ns[1..]);
      WholeIsRead(ns[1..]);
      ReadsItem(ns[0], " OR " + more);
      assert Item(ns[0]) + " OR " + more == Item(ns[0]) + (" OR " + more);
      RestOr(more, Picks(false, {ns[0]}));
      NumbersFirst(ns);
    }
  }

  lemma NumbersFirst(ns: seq<nat>)
    requires ns != []
    ensures NumbersIn(ns) == {ns[0]} + NumbersIn(ns[1..])
  {
    assert ns == [ns[0]] + ns[1..];
  }

  lemma RestOr(more: string, first: Reading)
    ensures Rest(" OR " + more, first) == Either(first, Read(more))
  {
    var s := " OR " + more;
    assert s[4..] == more && s[1] == 'O';
  }

  lemma DigitsEndAt(s: string, i: nat, e: nat)
    requires i <= e <= |s| && AllDigits(s[i..e]) && (e < |s| ==> !IsDigit(s[e]))
    ensures DigitsEnd(s, i) == e
  {
    var x := DigitsEnd(s, i);
    assert forall j :: i <= j < e ==> s[j] == s[i..e][j - i];
    assert forall j :: i <= j < x ==> s[j] == s[i..x][j - i];
  }

  /** A whole item. */
  lemma ReadsItem(n: nat, tail: string)
    requires tail == "" || !IsDigit(tail[0])
    ensures Read(Item(n) + tail) == Rest(tail, Picks(false, {n}))
  {
    var s, e := Item(n) + tail, 6 + |Decimal(n)|;
    assert s[6..e] == Decimal(n) && s[e..] == tail;
    DigitsEndAt(s, 6, e);
    NumberOfDecimal(n);
  }

  /** An item cut behind its first `m` characters. */
  function CutItem(n: nat, m: nat): Reading
    requires m <= |Item(n)|
  {
    if m == 3 || m == 4 then Picks(true, {}) else if m <= 6 then Broken else Picks(false, {Shown(n, m - 6)})
  }

  lemma ReadsCutItem(n: nat, m: nat)
    requires m <= |Item(n)|
    ensures Read(Item(n)[..m]) == CutItem(n, m)
  {
    var s := Item(n)[..m];
    if m > 6 {
      assert s[6..m] == Decimal(n)[..m - 6] && s[m..] == "";
      DigitsEndAt(s, 6, m);
    } else if m >= 3 {
      assert !("pos = " <= s && DigitsEnd(s, 6) > 6);
      var t := s[3..];
      assert m == 3 ==> t == "";
      assert m == 4 ==> t == " ";
      assert m > 4 ==> t[1] == '=';
    }
  }

  lemma PrefixOf(a: string, b: string, m: nat)
    requires |a| <= m <= |a| + |b|
    ensures (a + b)[..m] == a + b[..m - |a|]
  {
  }

  lemma ConditionOr(ns: seq<nat>)
    requires |ns| > 1
    ensures Condition(ns) == Item(ns[0]) + (" OR " + Condition(ns[1..]))
  {
    assert Item(ns[0]) + " OR " + Condition(ns[1..]) == Item(ns[0]) + (" OR " + Condition(ns[1..]));
  }

  lemma CutRest(ns: seq<nat>, m: nat)
    requires ns != [] && |Item(ns[0])| <= m < |Condition(ns)|
    ensures |ns| > 1 && m - |Item(ns[0])| < 4 + |Condition(ns[1..])|
    ensures Read(Condition(ns)[..m])
         == Rest((" OR " + Condition(ns[1..]))[..m - |Item(ns[0])|], Picks(false, {ns[0]}))
  {
    assert |ns| > 1;
    ConditionOr(ns);
    hide Condition, Item, Read, Rest;
    var t := " OR " + Condition(ns[1..]);
    PrefixOf(Item(ns[0]), t, m);
    var left := m - |Item(ns[0])|;
    assert left > 0 ==> t[..left][0] == ' ';
    ReadsItem(ns[0], t[..left]);
  }

  /** The cut falls into the first " OR ". */
  lemma RestCut(more: string, left: nat, first: Reading)
    requires left < 4
    ensures Rest((" OR " + more)[..left], first) == if left <= 1 then first else Broken
  {
    var t := (" OR " + more)[..left];
    assert left == 0 ==> t == "";
    assert left == 1 ==> t == " ";
  }

  /** It falls behind it. */
  lemma RestMore(more: string, left: nat, first: Reading)
    requires 4 <= left <= 4 + |more|
    ensures Rest((" OR " + more)[..left], first) == Either(first, Read(more[..left - 4]))
  {
    assert (" OR " + more)[..left] == " OR " + more[..left - 4];
    RestOr(more[..left - 4], first);
  }

  lemma ConditionStarts(ns: seq<nat>, m: nat)
    requires ns != [] && m <= |Item(ns[0])|
    ensures m <= |Condition(ns)| && Condition(ns)[..m] == Item(ns[0])[..m]
  {
  }

  /** `k` of the items behind the first are whole. */
  lemma OneMoreItem(ns: seq<nat>, k: nat)
    requires 0 < k < |ns|
    ensures |Condition(ns[..k + 1])| == |Item(ns[0])| + 4 + |Condition(ns[1..][..k])|
    ensures NumbersIn(ns[..k + 1]) == {ns[0]} + NumbersIn(ns[1..][..k])
  {
    var a := ns[..k + 1];
    assert a[1..] == ns[1..][..k] && a[0] == ns[0];
    NumbersFirst(a);
  }

  /** What the first `m` characters pick. */
  predicate ReadsAsCut(ns: seq<nat>, m: nat)
    requires m <= |Condition(ns)|
  {
    var k := Whole(ns, m);
    && 0 < k < |ns|
    && var r := m - |Condition(ns[..k])|;
       0 <= r < 4 + |Item(ns[k])| && Read(Condition(ns)[..m]) == CutReading(ns, k, r)
  }

  lemma CutBetween(ns: seq<nat>, m: nat)
    requires ns != [] && |Item(ns[0])| <= m < |Condition(ns)| && m - |Item(ns[0])| < 4
    ensures ReadsAsCut(ns, m)
  {
    CutRest(ns, m);
    RestCut(Condition(ns[1..]), m - |Item(ns[0])|, Picks(false, {ns[0]}));
    assert ns[..1] == [ns[0]] && Whole(ns, m) == 1 && Condition([ns[0]]) == Item(ns[0]);
    hide Read, Rest, Item;
  }

  lemma CutMore(ns: seq<nat>, m: nat)
    requires ns != [] && |Item(ns[0])| + 4 <= m < |Condition(ns)|
    ensures |ns| > 1 && m - |Item(ns[0])| - 4 < |Condition(ns[1..])|
    ensures Read(Condition(ns)[..m])
         == Either(Picks(false, {ns[0]}), Read(Condition(ns[1..])[..m - |Item(ns[0])| - 4]))
  {
    CutRest(ns, m);
    RestMore(Condition(ns[1..]), m - |Item(ns[0])|, Picks(false, {ns[0]}));
    hide Condition, Item, Read, Rest, Either;
  }

  lemma CutReadingFirst(ns: seq<nat>, m: nat)
    requires |ns| > 1 && m < |Item(ns[1])|
    ensures CutReading(ns, 1, 4 + m) == Either(Picks(false, {ns[0]}), CutItem(ns[1], m))
  {
    assert ns[..1] == [ns[0]];
    assert NumbersIn(ns[..1]) == {ns[0]};
  }

  lemma CutInSecond(ns: seq<nat>, m: nat)
    requires |ns| > 1 && |Item(ns[0])| <= m < |Condition(ns)| && 4 <= m - |Item(ns[0])| < 4 + |Item(ns[1])|
    ensures ReadsAsCut(ns, m)
  {
    var left := m - |Item(ns[0])| - 4;
    CutMore(ns, m);
    ConditionStarts(ns[1..], left);
    ReadsCutItem(ns[1], left);
    CutReadingFirst(ns, left);
    assert Whole(ns[1..], left) == 0;
    assert ns[..1] == [ns[0]] && Condition([ns[0]]) == Item(ns[0]);
    hide Read, Item, CutItem, CutReading, Either, Condition, Decimal;
  }

  lemma CutReadingLater(ns: seq<nat>, k: nat, r: nat)
    requires 0 < k < |ns| - 1 && r < 4 + |Item(ns[k + 1])|
    ensures ns[1..][k] == ns[k + 1]
    ensures CutReading(ns, k + 1, r) == Either(Picks(false, {ns[0]}), CutReading(ns[1..], k, r))
  {
    OneMoreItem(ns, k);
    hide Item, Shown, Condition, NumbersIn;
  }

  lemma CutLater(ns: seq<nat>, m: nat)
    requires ns != [] && |Item(ns[0])| + 4 <= m < |Condition(ns)|
    requires m - |Item(ns[0])| - 4 < |Condition(ns[1..])| && ReadsAsCut(ns[1..], m - |Item(ns[0])| - 4)
    ensures ReadsAsCut(ns, m)
  {
    var next, left := ns[1..], m - |Item(ns[0])| - 4;
    var k := Whole(next, left);
    CutMore(ns, m);
    OneMoreItem(ns, k);
    assert Whole(ns, m) == k + 1;
    CutReadingLater(ns, k, left - |Condition(next[..k])|);
    hide Read, Item, Condition, Whole, CutReading, Either, NumbersIn;
  }

  lemma TailLonger(ns: seq<nat>, m: nat)
    requires ns != [] && |Item(ns[0])| <= m < |Condition(ns)|
    ensures |ns| > 1 && ns[1..][0] == ns[1] && m - |Item(ns[0])| < 4 + |Condition(ns[1..])|
  {
  }

  /** What a cut condition picks, whatever the cut. */
  lemma {:induction false} CutIsRead(ns: seq<nat>, m: nat)
    requires ns != [] && |Item(ns[0])| <= m < |Condition(ns)|
    ensures ReadsAsCut(ns, m)
    decreases |ns|
  {
    var left := m - |Item(ns[0])|;
    TailLonger(ns, m);
    hide *;
    if left < 4 {
      CutBetween(ns, m);
    } else if left < 4 + |Item(ns[1])| {
      CutInSecond(ns, m);
    } else {
      CutIsRead(ns[1..], left - 4);
      CutLater(ns, m);
    }
  }

  // ---------------------------------------------------------------- what deltopic asks for

  /** Of `n` topics, those that are named are picked, and no other. */
  predicate AsNamed(ns: seq<nat>, n: nat) {
    var c := Read(Clip(Condition(ns), CLAUSE_MAX));
    c.Picks? && Picked(c, n) == NumbersIn(ns)
  }

  /** The buffer ends between two items, in a bare `pos`, or in a number that shows another; and what is lost is named
      elsewhere, and what is gained as well. */
  predicate CutHarmless(ns: seq<nat>, n: nat)
    requires ns != [] && |Item(ns[0])| <= CLAUSE_MAX < |Condition(ns)|
  {
    CutIsRead(ns, CLAUSE_MAX);
    var k := Whole(ns, CLAUSE_MAX);
    var r := CLAUSE_MAX - |Condition(ns[..k])|;
    if r <= 1 then NumbersIn(ns[k..]) <= NumbersIn(ns[..k])
    else if r == 7 || r == 8 then NumbersIn(ns) == UpTo(n)
    else
      r > 10 && Shown(ns[k], r - 10) in NumbersIn(ns)
      && NumbersIn(ns[k..]) <= NumbersIn(ns[..k]) + {Shown(ns[k], r - 10)}
  }

  lemma NumbersSplit(ns: seq<nat>, k: nat)
    requires k <= |ns|
    ensures NumbersIn(ns) == NumbersIn(ns[..k]) + NumbersIn(ns[k..])
  {
    assert ns == ns[..k] + ns[k..];
  }

  /** Exactly the topics named are picked if and only if the condition fits its buffer or the cut does no harm. */
  lemma {:induction false} NamedPicked(ns: seq<nat>, n: nat)
    requires ns != [] && |Item(ns[0])| <= CLAUSE_MAX
    ensures AsNamed(ns, n) <==> |Condition(ns)| <= CLAUSE_MAX || CutHarmless(ns, n)
  {
    if |Condition(ns)| <= CLAUSE_MAX {
      WholeIsRead(ns);
    } else {
      CutIsRead(ns, CLAUSE_MAX);
      var k := Whole(ns, CLAUSE_MAX);
      NumbersSplit(ns, k);
      hide Read, Condition, Item, Whole, NumbersIn, UpTo, Shown;
    }
  }

  /** A number that is cut shows a smaller one: the number of another topic. */
  lemma {:induction false} AnotherTopic(n: nat, d: nat)
    requires n > 0 && 0 < d < |Decimal(n)|
    ensures 0 < Shown(n, d) < n
  {
    var s := Decimal(n);
    NoLeadingZero(n);
    NumberOfDecimal(n);
    FewerDigits(s, d);
    FewerDigits(s[..d], 0);
    assert s[..d][..0] == "";
  }

  lemma ThreeDigits(n: nat)
    requires n < 1000
    ensures |Decimal(n)| <= 3
  {
    if n >= 10 {
      assert |Decimal(n / 10)| <= 2;
    }
  }

  /** Up to 39 numbers of three digits fit. */
  lemma {:induction false} ConditionShort(ns: seq<nat>)
    requires ns != [] && forall i :: 0 <= i < |ns| ==> ns[i] < 1000
    ensures |Condition(ns)| <= 13 * |ns| - 4 && |Item(ns[0])| <= 9
    ensures |ns| <= 39 ==> |Condition(ns)| <= CLAUSE_MAX
  {
    ThreeDigits(ns[0]);
    hide Decimal;
    if |ns| > 1 {
      ConditionShort(ns[1..]);
    }
  }
}
