/** The MODE commands that a flush queues, as they leave and as the other side reads them. */
module ModeLines {
  import opened Chars
  import opened Options
  import opened Words
  import opened Scheduler
  import opened Batching
  import C = ChanModes
  import R = ModeReading

  const NEWLINE: char := '\n'

  function Head(name: string): string {
    "MODE " + name + " "
  }

  /** What a MODE command for a channel is understood to ask for: each change with its target. */
  function ReadBack(line: string, name: string): seq<R.Handled> {
    if !(Head(name) <= line) then []
    else
      var s := line[|Head(name)|..];
      var e := WordEnd(s, 0);
      R.Log(C.Pairs(s[..e], 'x'), s[PastSpaces(s, e)..])
  }

  /** What is understood of what is written: nothing yet, unless it ends the line. */
  function Understood(sent: string, name: string): Option<seq<R.Handled>> {
    if sent == "" || sent[|sent| - 1] != NEWLINE then None else Some(ReadBack(sent[..|sent| - 1], name))
  }

  /** The changes of `commands` with the targets `words`, one after the other. */
  function Asked(commands: string, words: seq<string>): seq<R.Handled> {
    var p := C.Pairs(commands, 'x');
    seq(|p|, i requires 0 <= i => R.Meant(p, words, i))
  }

  // ---------------------------------------------------------------- the words of a line

  function WordsOf(s: string): seq<string>
    decreases |s|
  {
    if s == "" then []
    else if s[0] == SPACE then WordsOf(s[1..])
    else
      var e := WordEnd(s, 0);
      [s[..e]] + WordsOf(s[e..])
  }

  lemma {:induction false} WordsConcat(a: string, b: string)
    requires a == "" || a[|a| - 1] == SPACE || b == "" || b[0] == SPACE
    ensures WordsOf(a + b) == WordsOf(a) + WordsOf(b)
    decreases |a|
  {
    if a == "" {
      assert a + b == b;
    } else if a[0] == SPACE {
      assert (a + b)[1..] == a[1..] + b;
      WordsConcat(a[1..], b);
    } else {
      var e := WordEnd(a, 0);
      FirstEnd(a, b, e);
      assert (a + b)[..e] == a[..e] && (a + b)[e..] == a[e..] + b;
      hide WordEnd;
      WordsConcat(a[e..], b);
    }
  }

  lemma FirstEnd(a: string, b: string, e: nat)
    requires a != "" && a[0] != SPACE && e == WordEnd(a, 0)
    requires a[|a| - 1] == SPACE || b == "" || b[0] == SPACE
    ensures 0 < e <= |a| && WordEnd(a + b, 0) == e
  {
    assert forall i :: 0 <= i < |a| ==> (a + b)[i] == a[i];
    assert e == |a| < |a + b| ==> (a + b)[e] == b[0];
    WordEndIs(a + b, 0, e);
  }

  predicate AllGood(words: seq<string>) {
    forall i :: 0 <= i < |words| ==> R.GoodWord(words[i])
  }

  /** The first word of a line, the spaces behind it, and what follows them. */
  lemma FirstOf(s: string) returns (w: string, gap: nat, rest: string)
    requires s != "" && s[0] != SPACE
    ensures s == w + Spaces(gap) + rest && w != "" && |rest| < |s|
    ensures WordsOf(s) == [w] + WordsOf(rest)
    ensures (gap == 0 ==> rest == "") && (rest != "" ==> rest[0] != SPACE)
  {
    var e := WordEnd(s, 0);
    var next := PastSpaces(s, e);
    w, gap, rest := s[..e], next - e, s[next..];
    SkipSpaces(s, e, next);
    GapIs(s, e, next);
  }

  lemma GoodParts(w: string, words: seq<string>)
    requires AllGood([w] + words)
    ensures R.GoodWord(w) && AllGood(words)
  {
    var all := [w] + words;
    assert all[0] == w && forall i :: 0 <= i < |words| ==> words[i] == all[i + 1];
  }

  /** A line of good words that starts with the first of them. */
  lemma {:induction false} LaidOfWords(s: string) returns (gaps: seq<nat>)
    requires AllGood(WordsOf(s)) && (s != "" ==> s[0] != SPACE)
    ensures R.Laid(WordsOf(s), gaps) && s == R.Params(WordsOf(s), gaps)
    decreases |s|
  {
    if s == "" {
      gaps := [];
    } else {
      var w, gap, rest := FirstOf(s);
      hide WordsOf, Spaces, AllGood, R.GoodWord, R.Laid, R.Params;
      GoodParts(w, WordsOf(rest));
      var more := LaidOfWords(rest);
      gaps := [gap] + more;
      LaidOneMore(w, gap, WordsOf(rest), more, rest);
    }
  }

  lemma LaidOneMore(w: string, gap: nat, words: seq<string>, gaps: seq<nat>, rest: string)
    requires R.GoodWord(w) && R.Laid(words, gaps) && rest == R.Params(words, gaps) && (gap == 0 ==> rest == "")
    ensures R.Laid([w] + words, [gap] + gaps)
    ensures R.Params([w] + words, [gap] + gaps) == w + Spaces(gap) + rest
  {
    var all, wide := [w] + words, [gap] + gaps;
    assert all[1..] == words && wide[1..] == gaps;
    if words != [] {
      R.LaidStarts(words, gaps);
    }
  }

  lemma {:induction false} SkipSpaces(s: string, i: nat, j: nat)
    requires i <= j <= |s| && forall k :: i <= k < j ==> s[k] == SPACE
    ensures WordsOf(s[i..]) == WordsOf(s[j..])
    decreases j - i
  {
    if i < j {
      assert s[i..][0] == s[i] && s[i..][1..] == s[i + 1..];
      SkipSpaces(s, i + 1, j);
    }
  }

  lemma {:induction false} GapIs(s: string, i: nat, j: nat)
    requires i <= j <= |s| && forall k :: i <= k < j ==> s[k] == SPACE
    ensures s[i..j] == Spaces(j - i)
    decreases j - i
  {
    if i < j {
      assert s[i..j] == [s[i]] + s[i + 1..j];
      GapIs(s, i + 1, j);
    }
  }

  // ---------------------------------------------------------------- what is read of a whole line

  /** Behind the commands stand the words of the targets, as many as it takes or more. */
  lemma WholeRead(commands: string, targets: string)
    requires NoSpace(commands, 0, |commands|) && AllGood(WordsOf(targets))
    requires var p := C.Pairs(commands, 'x'); R.Known(p) && R.ParamsBefore(p, |p|) <= |WordsOf(targets)|
    ensures var s := commands + " " + targets; var e := WordEnd(s, 0);
      R.Log(C.Pairs(s[..e], 'x'), s[PastSpaces(s, e)..]) == Asked(commands, WordsOf(targets))
  {
    var s, e := commands + " " + targets, |commands|;
    CommandsEnd(commands, targets);
    var next := PastSpaces(s, e);
    var rest := s[next..];
    assert s[e..] == " " + targets && (" " + targets)[1..] == targets;
    SkipSpaces(s, e, next);
    var gaps := LaidOfWords(rest);
    R.AllModesRead(C.Pairs(commands, 'x'), WordsOf(rest), gaps);
    hide R.Laid, C.Pairs, R.Log, R.Known, R.ParamsBefore, R.Params, R.Meant;
  }

  lemma CommandsEnd(commands: string, tail: string)
    requires NoSpace(commands, 0, |commands|)
    ensures var s := commands + " " + tail;
      WordEnd(s, 0) == |commands| && s[..|commands|] == commands
  {
    var s := commands + " " + tail;
    assert forall i :: 0 <= i < |commands| ==> s[i] == commands[i];
    assert s[|commands|] == SPACE;
    WordEndIs(s, 0, |commands|);
  }

  /** Fewer commands, fewer changes. */
  lemma FewerCommands(commands: string, k: nat, tail: string)
    requires NoSpace(commands, 0, |commands|) && k < |commands| && !C.IsSign(commands[|commands| - 1])
    ensures var s := commands[..k] + " " + tail; var e := WordEnd(s, 0);
      |R.Log(C.Pairs(s[..e], 'x'), s[PastSpaces(s, e)..])| < |C.Pairs(commands, 'x')|
  {
    var a, b := commands[..k], commands[k..];
    assert a + b == commands;
    C.PairsConcat(a, b, 'x');
    C.LetterShows(b, |b| - 1, C.LastSign(a, 'x'));
    CommandsEnd(a, tail);
    var s := a + " " + tail;
    assert |R.Log(C.Pairs(a, 'x'), s[PastSpaces(s, k)..])| <= |C.Pairs(a, 'x')|;
  }

  // ---------------------------------------------------------------- the modes of a batch

  function TargetOf(m: Mmode): string {
    if m.target.Some? then m.target.value else ""
  }

  function WordsFor(m: Mmode): seq<string> {
    WordsOf(TargetOf(m))
  }

  /** Known changes behind a sign, with as many good words for them as they take. */
  predicate Proper(m: Mmode) {
    var c := m.command;
    var p := C.Pairs(c, 'x');
    && NoSpace(c, 0, |c|) && NEWLINE !in c && NEWLINE !in TargetOf(m)
    && (c != "" ==> C.IsSign(c[0]) && !C.IsSign(c[|c| - 1]))
    && R.Known(p) && R.ParamsBefore(p, |p|) == |WordsFor(m)| && AllGood(WordsFor(m))
  }

  predicate AllProper(ms: seq<Mmode>) {
    forall i :: 0 <= i < |ms| ==> Proper(ms[i])
  }

  /** What a batch is meant to ask for: what each of its modes asks for by itself. */
  function AllWanted(ms: seq<Mmode>): seq<R.Handled> {
    if ms == [] then []
    else AllWanted(ms[..|ms| - 1]) + Asked(ms[|ms| - 1].command, WordsFor(ms[|ms| - 1]))
  }

  /** The words of a batch. */
  function AllWords(ms: seq<Mmode>): seq<string> {
    if ms == [] then [] else AllWords(ms[..|ms| - 1]) + WordsFor(ms[|ms| - 1])
  }

  lemma {:induction false} TargetsAre(ms: seq<Mmode>)
    ensures WordsOf(PlainTargets(ms)) == AllWords(ms)
    ensures var t := PlainTargets(ms); t != "" ==> t[|t| - 1] == SPACE
  {
    if ms != [] {
      var front, m := ms[..|ms| - 1], ms[|ms| - 1];
      var before := PlainTargets(front);
      TargetsAre(front);
      if m.target.Some? {
        var t := m.target.value;
        assert before + t + " " == before + (t + " ");
        WordsConcat(t, " ");
        assert " "[1..] == "";
        assert WordsOf(" ") == [] && WordsOf(t) + [] == WordsOf(t);
        WordsConcat(before, t + " ");
      } else {
        assert AllWords(front) + [] == AllWords(front) && before + "" == before;
      }
    }
  }

  /** The changes asked for do not depend on what stands before or behind, as long as the words are counted off. */
  lemma {:induction false} ParamsConcat(p: seq<C.Change>, q: seq<C.Change>, i: nat)
    requires C.Signed(q) && i <= |q|
    ensures R.ParamsBefore(p + q, |p| + i) == R.ParamsBefore(p, |p|) + R.ParamsBefore(q, i)
  {
    if i == 0 {
      ParamsPrefix(p, q, |p|);
    } else {
      ParamsConcat(p, q, i - 1);
      assert (p + q)[|p| + i - 1] == q[i - 1];
    }
  }

  lemma {:induction false} KindPrefix(p: seq<C.Change>, q: seq<C.Change>, i: int)
    requires i < |p|
    ensures C.KindAt(p + q, i) == C.KindAt(p, i)
    decreases i
  {
    if 0 <= i {
      KindPrefix(p, q, i - 1);
    }
  }

  lemma {:induction false} ParamsPrefix(p: seq<C.Change>, q: seq<C.Change>, i: nat)
    requires i <= |p|
    ensures R.ParamsBefore(p + q, i) == R.ParamsBefore(p, i)
  {
    if i > 0 {
      ParamsPrefix(p, q, i - 1);
      KindPrefix(p, q, i - 1);
    }
  }

  lemma PairsOfBoth(c: string, d: string)
    requires d != "" ==> C.IsSign(d[0])
    ensures C.Pairs(c + d, 'x') == C.Pairs(c, 'x') + C.Pairs(d, 'x') && C.Signed(C.Pairs(d, 'x'))
  {
    C.PairsConcat(c, d, 'x');
    if d != "" {
      C.SignLed(d, 'x');
    }
  }

  lemma MeantBefore(p: seq<C.Change>, q: seq<C.Change>, w: seq<string>, v: seq<string>, i: nat)
    requires i < |p| && R.ParamsBefore(p, |p|) == |w|
    ensures R.Meant(p + q, w + v, i) == R.Meant(p, w, i)
  {
    KindPrefix(p, q, i);
    ParamsPrefix(p, q, i);
    R.MoreParams(p, i + 1, |p|);
    hide C.KindAt;
  }

  lemma KindBehind(p: seq<C.Change>, q: seq<C.Change>, i: nat)
    requires C.Signed(q) && i < |q|
    ensures C.KindAt(p + q, |p| + i) == C.KindAt(q, i)
  {
    assert (p + q)[|p| + i] == q[i];
  }

  lemma MeantBehind(p: seq<C.Change>, q: seq<C.Change>, w: seq<string>, v: seq<string>, i: nat)
    requires C.Signed(q) && i < |q| && R.ParamsBefore(p, |p|) == |w|
    ensures R.Meant(p + q, w + v, |p| + i) == R.Meant(q, v, i)
  {
    hide R.ParamsBefore, R.TakesParam, C.KindAt, C.Signed;
    ParamsConcat(p, q, i);
    KindBehind(p, q, i);
    var n := R.ParamsBefore(q, i);
    assert n < |v| ==> (w + v)[|w| + n] == v[n];
  }

  lemma AskedConcat(c: string, d: string, w: seq<string>, v: seq<string>)
    requires (d != "" ==> C.IsSign(d[0])) && var p := C.Pairs(c, 'x'); R.ParamsBefore(p, |p|) == |w|
    ensures Asked(c + d, w + v) == Asked(c, w) + Asked(d, v)
  {
    hide R.Meant, C.Pairs, R.ParamsBefore, C.KindAt, R.TakesParam, C.Signed;
    var p, q := C.Pairs(c, 'x'), C.Pairs(d, 'x');
    PairsOfBoth(c, d);
    forall i | 0 <= i < |p| ensures R.Meant(p + q, w + v, i) == R.Meant(p, w, i) {
      MeantBefore(p, q, w, v, i);
    }
    forall i | 0 <= i < |q| ensures R.Meant(p + q, w + v, |p| + i) == R.Meant(q, v, i) {
      MeantBehind(p, q, w, v, i);
    }
  }

  lemma KnownConcat(p: seq<C.Change>, q: seq<C.Change>)
    requires R.Known(p) && R.Known(q) && C.Signed(q)
    ensures R.Known(p + q)
  {
    forall i | 0 <= i < |p + q| ensures C.KindAt(p + q, i) != C.Unknown {
      if i < |p| {
        KindPrefix(p, q, i);
      } else {
        assert C.KindAt(q, i - |p|) != C.Unknown;
      }
    }
  }

  /** The letters of a batch make one line of commands. */
  predicate OneLine(c: string) {
    NoSpace(c, 0, |c|) && NEWLINE !in c && (c != "" ==> !C.IsSign(c[|c| - 1]))
  }

  /** Together the modes of a batch ask for what each of them asks for. */
  predicate AsksAll(ms: seq<Mmode>, c: string, words: seq<string>) {
    var p := C.Pairs(c, 'x');
    && R.Known(p) && R.ParamsBefore(p, |p|) == |words| && AllGood(words)
    && Asked(c, words) == AllWanted(ms) && |AllWanted(ms)| == |p|
  }

  lemma OneLineMore(c: string, d: string)
    requires OneLine(c) && OneLine(d)
    ensures OneLine(c + d)
  {
    NoSpaceBoth(c, d);
    assert d == "" ==> c + d == c;
    assert d != "" ==> (c + d)[|c + d| - 1] == d[|d| - 1];
  }

  lemma AsksMore(ms: seq<Mmode>, front: seq<Mmode>, m: Mmode, c: string, words: seq<string>)
    requires AsksAll(front, c, words) && Proper(m)
    requires ms != [] && front == ms[..|ms| - 1] && m == ms[|ms| - 1]
    ensures AsksAll(ms, c + m.command, words + WordsFor(m))
  {
    hide WordsFor, C.Pairs, R.Known, R.ParamsBefore, AllGood, Asked, NoSpace, WordsOf;
    var d, v := m.command, WordsFor(m);
    var p, q := C.Pairs(c, 'x'), C.Pairs(d, 'x');
    AskedConcat(c, d, words, v);
    PairsOfBoth(c, d);
    KnownConcat(p, q);
    ParamsConcat(p, q, |q|);
    AllGoodBoth(words, v);
    AskedSize(c, words);
    AskedSize(d, v);
  }

  lemma AskedSize(c: string, words: seq<string>)
    ensures |Asked(c, words)| == |C.Pairs(c, 'x')|
  {
  }

  lemma AllGoodBoth(a: seq<string>, b: seq<string>)
    requires AllGood(a) && AllGood(b)
    ensures AllGood(a + b)
  {
  }

  lemma NoSpaceBoth(c: string, d: string)
    requires NoSpace(c, 0, |c|) && NoSpace(d, 0, |d|)
    ensures NoSpace(c + d, 0, |c + d|)
  {
  }

  lemma {:induction false} BatchIsProper(ms: seq<Mmode>)
    requires AllProper(ms)
    ensures OneLine(PlainCommands(ms)) && AsksAll(ms, PlainCommands(ms), AllWords(ms))
  {
    if ms != [] {
      var front, m := ms[..|ms| - 1], ms[|ms| - 1];
      BatchIsProper(front);
      assert Proper(m) && OneLine(m.command);
      OneLineMore(PlainCommands(front), m.command);
      AsksMore(ms, front, m, PlainCommands(front), AllWords(front));
      hide AsksAll, OneLine, Proper;
    }
  }

  lemma {:induction false} NoNewline(ms: seq<Mmode>)
    requires AllProper(ms)
    ensures NEWLINE !in PlainTargets(ms)
  {
    if ms != [] {
      NoNewline(ms[..|ms| - 1]);
      assert Proper(ms[|ms| - 1]);
    }
  }

  // ---------------------------------------------------------------- the line that leaves

  /** The MODE command of a batch when only the buffer for the letters cuts it. */
  function Body(name: string, ms: seq<Mmode>): string {
    Head(name) + (Clip(PlainCommands(ms), CHANLEN) + " " + PlainTargets(ms))
  }

  const BODY_MAX := WRITE_BUFFER_LENGTH - 2  // a newline comes behind it

  /** Neither the buffer for the letters nor those for the line, which has to end in a newline, cut anything. */
  predicate Uncut(name: string, ms: seq<Mmode>) {
    |PlainCommands(ms)| <= CHANLEN && |Body(name, ms)| <= BODY_MAX
  }

  lemma SentIs(name: string, ms: seq<Mmode>, at: int)
    ensures var sent, body := Line(ModeCommand(name, Batch(at, ms))), Body(name, ms);
      if |body| <= BODY_MAX then sent == body + [NEWLINE]
      else |sent| == WRITE_BUFFER_LENGTH - 1 && sent[|sent| - 1] in body
  {
    BuffersClip(ms);
    var c, t := Commands(ms), Targets(ms);
    var body, written := Body(name, ms), "MODE " + name + " " + c + " " + t;
    assert written == Head(name) + (c + " " + t);
    assert written <= body && (t == PlainTargets(ms) || |written| > WRITE_BUFFER_LENGTH);
    assert |body| <= BODY_MAX ==> written == body;
    if |body| > BODY_MAX {
      assert |written| > BODY_MAX;
      assert written[BODY_MAX] == body[BODY_MAX];
    }
  }

  /** The reading of a line that is not too long. */
  lemma ReadsBody(name: string, c: string, t: string)
    ensures var s := c + " " + t; var e := WordEnd(s, 0);
      Understood(Head(name) + s + [NEWLINE], name) == Some(R.Log(C.Pairs(s[..e], 'x'), s[PastSpaces(s, e)..]))
  {
    var head, s := Head(name), c + " " + t;
    var body := head + s;
    assert (body + [NEWLINE])[..|body|] == body && body[..|head|] == head && body[|head|..] == s;
    hide Head, R.Log, C.Pairs, WordEnd, PastSpaces;
  }

  lemma LettersFit(name: string, ms: seq<Mmode>)
    requires AllProper(ms) && |PlainCommands(ms)| <= CHANLEN
    ensures Understood(Body(name, ms) + [NEWLINE], name) == Some(AllWanted(ms))
  {
    var c, t := PlainCommands(ms), PlainTargets(ms);
    BatchIsProper(ms);
    TargetsAre(ms);
    hide PlainCommands, PlainTargets, AllWanted, AllWords, WordsOf, AllGood, R.Known, R.ParamsBefore, Asked, Understood;
    hide C.IsSign;
    WholeRead(c, t);
    ReadsBody(name, c, t);
    hide Head, R.Log, C.Pairs, WordEnd, PastSpaces;
  }

  lemma LettersCut(name: string, ms: seq<Mmode>)
    requires AllProper(ms) && |PlainCommands(ms)| > CHANLEN
    ensures Understood(Body(name, ms) + [NEWLINE], name) != Some(AllWanted(ms))
  {
    var c, t := PlainCommands(ms), PlainTargets(ms);
    BatchIsProper(ms);
    assert |AllWanted(ms)| == |C.Pairs(c, 'x')| by {
      hide R.Known, R.ParamsBefore, Asked, AllGood, C.Pairs;
    }
    hide *;
    CutRead(name, c, t);
  }

  lemma CutRead(name: string, c: string, t: string)
    requires OneLine(c) && |c| > CHANLEN
    ensures var read := Understood(Head(name) + (Clip(c, CHANLEN) + " " + t) + [NEWLINE], name);
      read.Some? && |read.value| < |C.Pairs(c, 'x')|
  {
    hide Understood, Head, R.Log, C.Pairs, WordEnd, PastSpaces, C.IsSign;
    FewerCommands(c, CHANLEN, t);
    ReadsBody(name, Clip(c, CHANLEN), t);
  }

  lemma BodyNoNewline(name: string, ms: seq<Mmode>)
    requires AllProper(ms) && NEWLINE !in name
    ensures NEWLINE !in Body(name, ms)
  {
    BatchIsProper(ms);
    NoNewline(ms);
    hide AllWanted, AllWords, AllGood, R.Known, R.ParamsBefore, Asked, C.Pairs, AsksAll;
  }

  /** The MODE command of a batch, as it leaves, is understood as exactly what the modes of the batch ask for, each with
      its targets, if and only if no buffer cuts it. */
  lemma {:induction false} BatchReadBack(name: string, ms: seq<Mmode>, at: int)
    requires AllProper(ms) && NEWLINE !in name
    ensures Understood(Line(ModeCommand(name, Batch(at, ms))), name) == Some(AllWanted(ms)) <==> Uncut(name, ms)
  {
    SentIs(name, ms, at);
    if |Body(name, ms)| > BODY_MAX {
      BodyNoNewline(name, ms);
    } else if |PlainCommands(ms)| <= CHANLEN {
      LettersFit(name, ms);
    } else {
      LettersCut(name, ms);
    }
    hide Line, ModeCommand, Body, ReadBack, PlainCommands, AllWanted, AllProper;
  }

  lemma OneWord(w: string)
    requires R.GoodWord(w)
    ensures WordsOf(w) == [w]
  {
    WordEndIs(w, 0, |w|);
    assert w[..|w|] == w && w[|w|..] == "";
  }

  lemma PairOf(sign: char, letter: char)
    requires C.IsSign(sign) && !C.IsSign(letter)
    ensures C.Pairs([sign, letter], 'x') == [C.Change(sign, letter)]
  {
    var s := [sign, letter];
    assert s[1..] == [letter] && [letter][1..] == "";
    assert C.Pairs([letter], sign) == [C.Change(sign, letter)] + [];
  }

  /** A ban in a batch is wanted as such, and so is its end. */
  lemma {:induction false} BanWanted(ms: seq<Mmode>, i: nat, sign: char, mask: string)
    requires i < |ms| && ms[i].command == [sign, 'b'] && ms[i].target == Some(mask)
    requires C.IsSign(sign) && R.GoodWord(mask)
    ensures R.Handled(if sign == '+' then C.Ban else C.Unban, mask) in AllWanted(ms)
  {
    if i < |ms| - 1 {
      BanWanted(ms[..|ms| - 1], i, sign, mask);
    } else {
      OneWord(mask);
      PairOf(sign, 'b');
      var p, kind := C.Pairs([sign, 'b'], 'x'), if sign == '+' then C.Ban else C.Unban;
      assert R.ParamsBefore(p, 0) == 0 && R.Meant(p, [mask], 0) == R.Handled(kind, mask);
      assert Asked([sign, 'b'], [mask])[0] == R.Handled(kind, mask);
    }
  }

  /** How much that is: fifty characters for the letters, and five hundred and ten for the line without its newline. */
  lemma {:induction false} UncutMeans(name: string, letters: string, targets: string, ms: seq<Mmode>)
    requires PlainCommands(ms) == letters && PlainTargets(ms) == targets
    ensures Uncut(name, ms) <==> |letters| <= 50 && |name| + |letters| + |targets| + 7 <= 510
  {
    assert |letters| <= 50 ==> Body(name, ms) == Head(name) + (letters + " " + targets);
  }
}
