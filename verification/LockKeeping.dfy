/** Key and limit of a channel: what somebody else's change of them makes the bot send. */
module LockKeeping {
  import opened Chars
  import opened Options
  import opened Words
  import opened ChanModes
  import opened ModeReading

  // ---------------------------------------------------------------- what the restoring mode asks for

  /** A mode that fits the record of the channel. */
  predicate Recorded(mode: string) {
    |mode| <= CHANLEN
  }

  /** No change of the letter. */
  predicate Lacks(p: seq<Change>, x: char) {
    forall i :: 0 <= i < |p| ==> p[i].letter != x
  }

  lemma {:induction false} PolarBehind(a: seq<Change>, b: seq<Change>, x: char)
    requires Lacks(a, x)
    ensures Polar(a + b, x) == Polar(b, x)
  {
    if a == [] {
      assert a + b == b;
    } else {
      assert (a + b)[0] == a[0] && (a + b)[1..] == a[1..] + b;
      PolarBehind(a[1..], b, x);
    }
  }

  lemma {:induction false} PolarAhead(a: seq<Change>, b: seq<Change>, x: char)
    requires Lacks(b, x)
    ensures Polar(a + b, x) == Polar(a, x)
  {
    if a == [] {
      assert a + b == b && b + [] == b;
      PolarBehind(b, [], x);
    } else {
      assert (a + b)[0] == a[0] && (a + b)[1..] == a[1..] + b;
      PolarAhead(a[1..], b, x);
    }
  }

  /** The sign of a mode is that of its first change. */
  lemma {:induction false} PolarIs(p: seq<Change>, i: nat, mode: char)
    requires i < |p| && p[i].letter == mode && forall j :: 0 <= j < i ==> p[j].letter != mode
    ensures Polar(p, mode) == p[i].polar
    decreases i
  {
    if i > 0 {
      assert forall j :: 0 <= j < i - 1 ==> p[1..][j] == p[j + 1];
      PolarIs(p[1..], i - 1, mode);
    }
  }

  lemma {:induction false} WithoutLeaves(p: seq<Change>, what: string)
    ensures forall i :: 0 <= i < |Without(p, what)| ==> Without(p, what)[i].letter !in what
  {
    if p != [] {
      WithoutLeaves(p[1..], what);
    }
  }

  /** The change of one lock, if it is due. */
  lemma PartPairs(mode: string, letter: char, value: string, isSet: bool, polar: char)
    requires letter == 'k' || letter == 'l'
    ensures Pairs(LockPart(mode, letter, value, isSet), polar)
      == if value == "" || isSet then []
         else [Change(if Polar(Pairs(mode, 'x'), letter) == '-' then '-' else '+', letter)]
  {
    var part := LockPart(mode, letter, value, isSet);
    if part != "" {
      assert part[1..] == [letter] && [letter][1..] == "";
      assert Pairs([letter], part[0]) == [Change(part[0], letter)] + [];
    }
  }

  /** The restoring mode, whole: the channel mode without key and limit, and behind it those that are due. */
  lemma RestoringPairs(mode: string, l: Locks) returns (front: seq<Change>, k: seq<Change>, n: seq<Change>)
    requires Recorded(mode)
    ensures Pairs(RestoringModes(mode, l), 'x') == front + k + n && front == Without(Pairs(mode, 'x'), "kl")
    ensures k == if l.key == "" || l.keyIsSet then []
                 else [Change(if Polar(Pairs(mode, 'x'), 'k') == '-' then '-' else '+', 'k')]
    ensures n == if l.limit == "" || l.limitIsSet then []
                 else [Change(if Polar(Pairs(mode, 'x'), 'l') == '-' then '-' else '+', 'l')]
  {
    var f := Filtered(mode, "kl", STRINGLEN);
    var a, b := LockPart(mode, 'k', l.key, l.keyIsSet), LockPart(mode, 'l', l.limit, l.limitIsSet);
    FilterMeans(mode, "kl", STRINGLEN);
    FilteredFits(mode);
    front := Pairs(f, 'x');
    PairsConcat(f, a, 'x');
    PairsConcat(f + a, b, 'x');
    PartPairs(mode, 'k', l.key, l.keyIsSet, LastSign(f, 'x'));
    PartPairs(mode, 'l', l.limit, l.limitIsSet, LastSign(f + a, 'x'));
    k, n := Pairs(a, LastSign(f, 'x')), Pairs(b, LastSign(f + a, 'x'));
    RestoringWhole(mode, l, f, a, b);
    hide Pairs, Filtered, LockPart, Polar, LastSign;
  }

  lemma FilteredFits(mode: string)
    requires Recorded(mode)
    ensures |Filtered(mode, "kl", STRINGLEN)| <= CHANLEN
    ensures |ChanModes.Stripped(Copied(mode, "kl", 'x'))| <= STRINGLEN
  {
    StrippedShorter(Copied(mode, "kl", 'x'));
  }

  lemma {:induction false} StrippedShorter(s: string)
    ensures |ChanModes.Stripped(s)| <= |s|
    decreases |s|
  {
    if s != "" {
      StrippedShorter(s[..|s| - 1]);
    }
  }

  lemma RestoringWhole(mode: string, l: Locks, f: string, a: string, b: string)
    requires f == Filtered(mode, "kl", STRINGLEN) && |f| <= CHANLEN
    requires a == LockPart(mode, 'k', l.key, l.keyIsSet) && b == LockPart(mode, 'l', l.limit, l.limitIsSet)
    ensures RestoringModes(mode, l) == f + a + b
  {
    assert |a| <= 2 && |b| <= 2;
    hide Filtered, LockPart;
  }

  lemma PolarOfParts(front: seq<Change>, k: seq<Change>, n: seq<Change>, x: char)
    requires Lacks(front, 'k') && Lacks(front, 'l')
    requires (forall i :: 0 <= i < |k| ==> k[i].letter == 'k') && forall i :: 0 <= i < |n| ==> n[i].letter == 'l'
    ensures Polar(front + k + n, x)
      == if x == 'k' then Polar(k, x) else if x == 'l' then Polar(n, x) else Polar(front, x)
  {
    hide Polar;
    if x == 'l' {
      PolarBehind(front + k, n, x);
    } else {
      PolarAhead(front + k, n, x);
      if x == 'k' {
        PolarBehind(front, k, x);
      } else {
        PolarAhead(front, k, x);
      }
    }
  }

  lemma PolarOfOne(sign: char, x: char)
    ensures Polar([Change(sign, x)], x) == sign && Polar([], x) == 'x'
  {
  }

  /** What the restoring mode asks for, letter by letter: a key or a limit that is known and not set, with a minus if
      and only if the channel mode has it so; and everything else as the channel mode does. */
  lemma {:induction false} RestoringPolar(mode: string, l: Locks, x: char)
    requires Recorded(mode)
    ensures var want := Polar(Pairs(mode, 'x'), x);
      Polar(Pairs(RestoringModes(mode, l), 'x'), x)
        == if x == 'k' then if l.key == "" || l.keyIsSet then 'x' else if want == '-' then '-' else '+'
           else if x == 'l' then if l.limit == "" || l.limitIsSet then 'x' else if want == '-' then '-' else '+'
           else want
  {
    hide RestoringModes, Pairs, Polar, Without;
    var front, k, n := RestoringPairs(mode, l);
    WithoutLeaves(Pairs(mode, 'x'), "kl");
    PolarWithout(Pairs(mode, 'x'), "kl", x);
    PolarOfParts(front, k, n, x);
    PolarOfOne('+', x);
    PolarOfOne('-', x);
  }

  // ---------------------------------------------------------------- what becomes of somebody else's change

  /** The channel record after one change by somebody else. */
  function After(mode: string, l: Locks, sign: char, letter: char, target: string): Locks {
    Noted(l, Pairs(mode, 'x'), Change(sign, letter), target)
  }

  /** The sign with which the restoring mode then has the letter, `x` if it does not. */
  function Restores(mode: string, l: Locks, letter: char): char {
    Polar(Pairs(RestoringModes(mode, l), 'x'), letter)
  }

  /** A key that somebody takes off is put back if the channel is to have one, and else forgotten. */
  lemma {:induction false} KeyTakenOff(mode: string, l: Locks, target: string)
    requires Recorded(mode)
    ensures var want, r := Polar(Pairs(mode, 'x'), 'k'), After(mode, l, '-', 'k', target);
      if want == '+' then r.key == l.key && (l.key != "" ==> Restores(mode, r, 'k') == '+')
      else r.key == "" && Restores(mode, r, 'k') == 'x'
  {
    RestoringPolar(mode, After(mode, l, '-', 'k', target), 'k');
    hide RestoringModes, Polar, Pairs;
  }

  /** A key that somebody sets becomes the key; it is taken off again if the channel is to have none. */
  lemma {:induction false} KeyPutOn(mode: string, l: Locks, target: string)
    requires Recorded(mode) && 0 < |target| <= CHANLEN && !l.keyIsSet
    ensures var want, r := Polar(Pairs(mode, 'x'), 'k'), After(mode, l, '+', 'k', target);
      r.key == target && Restores(mode, r, 'k') == if want == '-' then '-' else 'x'
  {
    RestoringPolar(mode, After(mode, l, '+', 'k', target), 'k');
    hide RestoringModes, Polar, Pairs;
  }

  /** The same for the limit, which counts as set only by the last change. */
  lemma {:induction false} LimitTakenOff(mode: string, l: Locks)
    requires Recorded(mode)
    ensures var want, r := Polar(Pairs(mode, 'x'), 'l'), After(mode, l, '-', 'l', "");
      if want == '+' then r.limit == l.limit && (l.limit != "" ==> Restores(mode, r, 'l') == '+')
      else r.limit == "" && Restores(mode, r, 'l') == 'x'
  {
    RestoringPolar(mode, After(mode, l, '-', 'l', ""), 'l');
    hide RestoringModes, Polar, Pairs;
  }

  lemma {:induction false} LimitPutOn(mode: string, l: Locks, target: string)
    requires Recorded(mode) && 0 < |target| <= CHANLEN
    ensures var want, r := Polar(Pairs(mode, 'x'), 'l'), After(mode, l, '+', 'l', target);
      r.limit == target && Restores(mode, r, 'l') == if want == '-' then '-' else 'x'
  {
    RestoringPolar(mode, After(mode, l, '+', 'l', target), 'l');
    hide RestoringModes, Polar, Pairs;
  }

  /** Once the restoring mode is sent, nothing is due until somebody changes a lock again, and a lock that the channel
      is not to have is forgotten. */
  lemma {:induction false} RestoredOnce(mode: string, l: Locks)
    requires Recorded(mode)
    ensures var r := LocksRestored(mode, l);
      && Restores(mode, r, 'k') == 'x' && Restores(mode, r, 'l') == 'x'
      && (Restores(mode, l, 'k') == '-' ==> r.key == "") && (Restores(mode, l, 'k') != '-' ==> r.key == l.key)
      && (Restores(mode, l, 'l') == '-' ==> r.limit == "") && (Restores(mode, l, 'l') != '-' ==> r.limit == l.limit)
  {
    RestoringPolar(mode, l, 'k');
    RestoringPolar(mode, l, 'l');
    RestoringPolar(mode, LocksRestored(mode, l), 'k');
    RestoringPolar(mode, LocksRestored(mode, l), 'l');
    hide RestoringModes, Polar, Pairs;
  }
}
