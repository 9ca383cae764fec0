/** The mode with which `setchanmode` of ds.c restores a channel, among the others of its batch. */
module ModeRestoring {
  import opened Chars
  import opened Options
  import opened Words
  import opened Scheduler
  import opened Batching
  import opened ModeLines
  import C = ChanModes
  import R = ModeReading

  /** A channel mode without parameters but for key and limit. */
  predicate Kept(mode: string) {
    && |mode| <= CHANLEN && NoSpace(mode, 0, |mode|) && NEWLINE !in mode && (mode != "" ==> C.IsSign(mode[0]))
    && forall i :: 0 <= i < |mode| ==> C.IsSign(mode[i]) || mode[i] in "psitnmcCkl"
  }

  /** Known changes behind a sign that take `n` parameters. */
  predicate Takes(c: string, n: nat) {
    var p := C.Pairs(c, 'x');
    OneLine(c) && (c != "" ==> C.IsSign(c[0])) && R.Known(p) && R.ParamsBefore(p, |p|) == n
  }

  lemma TakesBoth(c: string, d: string, m: nat, n: nat)
    requires Takes(c, m) && Takes(d, n)
    ensures Takes(c + d, m + n)
  {
    var p, q := C.Pairs(c, 'x'), C.Pairs(d, 'x');
    OneLineMore(c, d);
    PairsOfBoth(c, d);
    KnownConcat(p, q);
    ParamsConcat(p, q, |q|);
    assert c != "" ==> (c + d)[0] == c[0];
    assert c == "" ==> c + d == d;
    hide C.Pairs, R.Known, R.ParamsBefore, OneLine;
  }

  lemma {:induction false} NoneTaken(p: seq<C.Change>, n: nat)
    requires n <= |p| && C.Signed(p) && forall i :: 0 <= i < |p| ==> p[i].letter in "psitnmcC"
    ensures R.ParamsBefore(p, n) == 0 && R.Known(p)
  {
    if n > 0 {
      NoneTaken(p, n - 1);
    }
  }

  lemma {:induction false} PairsFrom(mode: string, polar: char)
    ensures forall x :: x in C.Pairs(mode, polar) ==> x.letter in mode && !C.IsSign(x.letter)
  {
    if mode != "" {
      assert mode == [mode[0]] + mode[1..];
      PairsFrom(mode[1..], if C.IsSign(mode[0]) then mode[0] else polar);
    }
  }

  lemma {:induction false} WithoutFrom(p: seq<C.Change>, what: string)
    ensures forall x :: x in C.Without(p, what) ==> x in p && x.letter !in what
  {
    if p != [] {
      WithoutFrom(p[1..], what);
    }
  }

  lemma KeptPairs(mode: string)
    requires Kept(mode)
    ensures var p := C.Without(C.Pairs(mode, 'x'), "kl"); forall i :: 0 <= i < |p| ==> p[i].letter in "psitnmcC"
  {
    var p := C.Without(C.Pairs(mode, 'x'), "kl");
    PairsFrom(mode, 'x');
    WithoutFrom(C.Pairs(mode, 'x'), "kl");
    hide C.Pairs, C.Without;
    assert "psitnmcCkl" == "psitnmcC" + "kl";
    forall i | 0 <= i < |p| ensures p[i].letter in "psitnmcC" {
      assert p[i] in p;
      var k :| 0 <= k < |mode| && mode[k] == p[i].letter;
    }
  }

  lemma {:induction false} CopiedFrom(mode: string, active: char)
    ensures forall x :: x in C.Copied(mode, "kl", active) ==> x in mode
  {
    if mode != "" {
      assert mode == [mode[0]] + mode[1..];
      CopiedFrom(mode[1..], if C.IsSign(mode[0]) then mode[0] else active);
    }
  }

  lemma FilteredTakesNone(mode: string)
    requires Kept(mode)
    ensures Takes(C.Filtered(mode, "kl", STRINGLEN), 0) && |C.Filtered(mode, "kl", STRINGLEN)| <= CHANLEN
  {
    var f := C.Filtered(mode, "kl", STRINGLEN);
    C.FilterMeans(mode, "kl", STRINGLEN);
    KeptPairs(mode);
    FilteredFrom(mode);
    var p := C.Pairs(f, 'x');
    hide C.Filtered, C.Pairs, C.Copied, C.Without;
    if f != "" {
      C.SignLed(f, 'x');
    }
    NothingTakesNone();
    NoneTaken(p, |p|);
  }

  lemma FilteredFrom(mode: string)
    requires Kept(mode)
    ensures var f := C.Filtered(mode, "kl", STRINGLEN);
      && OneLine(f) && |f| <= |mode| && (f != "" ==> C.IsSign(f[0]))
  {
    var f, whole := C.Filtered(mode, "kl", STRINGLEN), C.Copied(mode, "kl", 'x');
    CopiedFrom(mode, 'x');
    assert f <= whole;
    assert f != "" ==> f[0] == whole[0];
    forall i | 0 <= i < |f| ensures f[i] in mode {
      assert f[i] == whole[i];
      assert whole[i] in whole;
    }
    forall x | x in mode ensures x != SPACE && x != NEWLINE {
      var i :| 0 <= i < |mode| && mode[i] == x;
    }
    hide C.Copied;
  }

  lemma LockTakes(sign: char, letter: char)
    requires C.IsSign(sign) && (letter == 'k' || letter == 'l')
    ensures Takes([sign, letter], if sign == '-' && letter == 'l' then 0 else 1)
  {
    PairOf(sign, letter);
    var p := [C.Change(sign, letter)];
    assert R.ParamsBefore(p, 1) == R.ParamsBefore(p, 0) + if R.TakesParam(C.KindAt(p, 0)) then 1 else 0;
  }

  lemma NothingTakesNone()
    ensures Takes("", 0)
  {
  }

  /** Key and limit are single words, if they are there. */
  predicate Lockable(l: R.Locks) {
    && (l.key != "" ==> R.GoodWord(l.key)) && (l.limit != "" ==> R.GoodWord(l.limit))
    && |l.key| <= CHANLEN && |l.limit| <= CHANLEN && NEWLINE !in l.key && NEWLINE !in l.limit
  }

  lemma TargetsWords(l: R.Locks)
    requires Lockable(l)
    ensures var t, k, n := R.RestoringTargets(l), l.key != "" && !l.keyIsSet, l.limit != "" && !l.limitIsSet;
      WordsOf(t) == (if k then [l.key] else []) + (if n then [l.limit] else []) && NEWLINE !in t
  {
    var k, n := l.key != "" && !l.keyIsSet, l.limit != "" && !l.limitIsSet;
    if k {
      OneWord(l.key);
    }
    if n {
      OneWord(l.limit);
    }
    if k && n {
      assert R.RestoringTargets(l) == l.key + (" " + l.limit);
      WordsConcat(l.key, " " + l.limit);
      assert (" " + l.limit)[1..] == l.limit;
    }
    assert [l.key] + [] == [l.key] && [] + [l.limit] == [l.limit];
  }

  /** Whether the limit is sent with a sign that takes none. */
  predicate LimitIdle(mode: string, l: R.Locks) {
    l.limit != "" && !l.limitIsSet && C.Polar(C.Pairs(mode, 'x'), 'l') == '-'
  }

  lemma LockPartTakes(mode: string, letter: char, value: string, isSet: bool)
    requires letter == 'k' || letter == 'l'
    ensures var sent := value != "" && !isSet;
      var d, idle := R.LockPart(mode, letter, value, isSet), letter == 'l' && C.Polar(C.Pairs(mode, 'x'), 'l') == '-';
      |d| <= 2 && Takes(d, if sent && !idle then 1 else 0)
  {
    NothingTakesNone();
    LockTakes(R.Sign(C.Polar(C.Pairs(mode, 'x'), letter)), letter);
    hide Takes, C.Polar, C.Pairs;
  }

  function LocksTake(mode: string, l: R.Locks): nat {
    (if l.key != "" && !l.keyIsSet then 1 else 0)
    + (if l.limit != "" && !l.limitIsSet && !LimitIdle(mode, l) then 1 else 0)
  }

  lemma RestoringTakes(mode: string, l: R.Locks)
    requires Kept(mode)
    ensures Takes(R.RestoringModes(mode, l), LocksTake(mode, l))
  {
    var f := C.Filtered(mode, "kl", STRINGLEN);
    var k, n := R.LockPart(mode, 'k', l.key, l.keyIsSet), R.LockPart(mode, 'l', l.limit, l.limitIsSet);
    FilteredTakesNone(mode);
    LockPartTakes(mode, 'k', l.key, l.keyIsSet);
    LockPartTakes(mode, 'l', l.limit, l.limitIsSet);
    var i := if l.key != "" && !l.keyIsSet then 1 else 0;
    hide Takes, Kept, C.Filtered, C.Polar, C.Pairs, R.LockPart;
    TakesBoth(f, k, 0, i);
    TakesBoth(f + k, n, i, LocksTake(mode, l) - i);
    assert R.RestoringModes(mode, l) == f + k + n;
  }

  /** What `setchanmode` queues is a proper mode if and only if it does not send a limit along with `-l`. */
  lemma {:induction false} RestoringProper(mode: string, l: R.Locks, at: int)
    requires Kept(mode) && Lockable(l)
    ensures Proper(Mmode(at, R.RestoringModes(mode, l), Some(R.RestoringTargets(l)))) <==> !LimitIdle(mode, l)
  {
    RestoringTakes(mode, l);
    TargetsWords(l);
    ProperIs(Mmode(at, R.RestoringModes(mode, l), Some(R.RestoringTargets(l))), LocksTake(mode, l));
    hide Proper, Takes, C.Polar, C.Pairs, R.RestoringModes, R.RestoringTargets, WordsOf;
  }

  lemma ProperIs(m: Mmode, n: nat)
    requires Takes(m.command, n) && NEWLINE !in TargetOf(m)
    ensures Proper(m) <==> n == |WordsFor(m)| && AllGood(WordsFor(m))
  {
    hide C.Pairs, R.Known, R.ParamsBefore, AllGood, WordsOf;
  }

  lemma LimitAndBanText(a: int, limit: string, b: int, mask: string)
    requires R.GoodWord(limit) && R.GoodWord(mask)
    ensures var ms := [Mmode(a, "-l", Some(limit)), Mmode(b, "+b", Some(mask))];
      PlainCommands(ms) == "-l+b" && WordsOf(PlainTargets(ms)) == [limit, mask]
  {
    var m1, m2 := Mmode(a, "-l", Some(limit)), Mmode(b, "+b", Some(mask));
    var none: seq<Mmode>, ms := [], [m1, m2];
    OneWord(limit);
    OneWord(mask);
    TargetsAre(ms);
    assert ms[..1] == none + [m1] && (none + [m1])[..0] == none && ms[1] == m2;
    hide WordsOf, R.GoodWord, PlainTargets;
    assert PlainCommands(none) == "" && PlainCommands(none + [m1]) == "" + "-l" == "-l";
    assert PlainCommands(ms) == "-l" + "+b" == "-l+b";
    assert AllWords(none) == [] && AllWords(none + [m1]) == [] + WordsOf(limit) == WordsOf(limit);
    assert AllWords(ms) == WordsOf(limit) + WordsOf(mask);
  }

  lemma LimitAndBanAsked(limit: string, mask: string)
    ensures R.Known(C.Pairs("-l+b", 'x')) && R.ParamsBefore(C.Pairs("-l+b", 'x'), |C.Pairs("-l+b", 'x')|) == 1
    ensures Asked("-l+b", [limit, mask]) == [R.Handled(C.WithoutParams, ""), R.Handled(C.Ban, limit)]
  {
    PairOf('-', 'l');
    PairOf('+', 'b');
    PairsOfBoth("-l", "+b");
    assert "-l" + "+b" == "-l+b";
    var p := C.Pairs("-l+b", 'x');
    assert p == [C.Change('-', 'l'), C.Change('+', 'b')];
    hide C.Pairs;
    assert R.ParamsBefore(p, 0) == 0 && R.ParamsBefore(p, 1) == 0 && R.ParamsBefore(p, 2) == 1;
  }

  /** A limit sent along with `-l` is taken for the target of the mode that comes next: here the ban is one of the
      limit, and the mask is left over. */
  lemma {:induction false} LimitTaken(name: string, a: int, limit: string, b: int, mask: string, at: int)
    requires R.GoodWord(limit) && R.GoodWord(mask) && NEWLINE !in name
    ensures var ms := [Mmode(a, "-l", Some(limit)), Mmode(b, "+b", Some(mask))];
      var read := Understood(Line(ModeCommand(name, Batch(at, ms))), name);
      Uncut(name, ms) ==> read == Some([R.Handled(C.WithoutParams, ""), R.Handled(C.Ban, limit)])
  {
    var ms := [Mmode(a, "-l", Some(limit)), Mmode(b, "+b", Some(mask))];
    LimitAndBanText(a, limit, b, mask);
    LimitAndBanAsked(limit, mask);
    if Uncut(name, ms) {
      hide C.Pairs, WordsOf, Asked, R.Known, R.ParamsBefore, PlainCommands, PlainTargets, Understood;
      assert AllGood([limit, mask]);
      WholeRead("-l+b", PlainTargets(ms));
      ReadsBody(name, "-l+b", PlainTargets(ms));
      SentIs(name, ms, at);
      hide ModeCommand, Line, R.Log, WordEnd, PastSpaces;
    }
  }
}
