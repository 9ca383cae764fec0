/** The MODE loop of `parseirc` in parse.c: which parameter each mode change of a line gets. */
module ModeReading {
  import opened Chars
  import opened Options
  import opened Words
  import opened ChanModes
  import P = ProtocolMessages

  predicate TakesParam(k: Kind) {
    k != WithoutParams && k != Unknown
  }

  /** Where the scan for parameters stands after `k` words, if there are as many. */
  function Place(rest: string, pos: nat, k: nat): (r: Option<nat>)
    requires pos <= |rest|
    ensures r.Some? ==> pos <= r.value <= |rest|
    decreases k
  {
    if k == 0 then Some(pos)
    else
      var next := Next(rest, pos, STRINGLEN);
      if next != pos && next > 0 then Place(rest, next, k - 1) else None
  }

  lemma {:induction false} PlaceNext(rest: string, pos: nat, k: nat)
    requires pos <= |rest|
    ensures Place(rest, pos, k + 1) == match Place(rest, pos, k)
      case None => None
      case Some(at) => Place(rest, at, 1)
    decreases k
  {
    if k > 0 {
      var next := Next(rest, pos, STRINGLEN);
      if next != pos && next > 0 {
        PlaceNext(rest, next, k - 1);
      }
    }
  }

  /** How many of the first `i` changes take a parameter. */
  function ParamsBefore(p: seq<Change>, i: nat): nat {
    if i == 0 then 0 else ParamsBefore(p, i - 1) + if TakesParam(KindAt(p, i - 1)) then 1 else 0
  }

  /** Change `i` is of a known kind and there is a word for it if it takes one. */
  predicate Readable(p: seq<Change>, rest: string, i: nat) {
    && KindAt(p, i) != Unknown
    && (TakesParam(KindAt(p, i)) ==> Place(rest, 0, ParamsBefore(p, i) + 1).Some?)
  }

  /** The first change from `i` on that cannot be read, or the end. */
  function Stop(p: seq<Change>, rest: string, i: nat): (n: nat)
    requires i <= |p|
    ensures i <= n <= |p| && (n < |p| ==> !Readable(p, rest, n))
    ensures forall j :: i <= j < n ==> Readable(p, rest, j)
    decreases |p| - i
  {
    if i == |p| || !Readable(p, rest, i) then i else Stop(p, rest, i + 1)
  }

  /** A change as it is acted on. */
  datatype Handled = Handled(kind: Kind, target: string)

  /** Change `i` gets the word whose number is the number of parameters before it. */
  function HandledAt(p: seq<Change>, rest: string, i: nat): Handled {
    var kind := KindAt(p, i);
    Handled(kind, if !TakesParam(kind) then "" else match Place(rest, 0, ParamsBefore(p, i))
      case Some(at) => Word(rest, at, STRINGLEN)
      case None => "")
  }

  /** Everything that is acted on: the readable changes, and the first one whose word is missing. */
  function Log(p: seq<Change>, rest: string): seq<Handled> {
    var n := Stop(p, rest, 0);
    Entries(p, rest, if KindAt(p, n) == Unknown then n else n + 1)
  }

  function Entries(p: seq<Change>, rest: string, n: nat): (r: seq<Handled>)
    ensures |r| == n && forall i :: 0 <= i < n ==> r[i] == HandledAt(p, rest, i)
  {
    seq(n, i requires 0 <= i => HandledAt(p, rest, i))
  }

  // ---------------------------------------------------------------- the steps of the loop

  /** Before change `i`: `log` holds the changes before it and the next word is looked for at `restpos`. */
  predicate OnCourse(p: seq<Change>, rest: string, i: nat, restpos: nat, log: seq<Handled>) {
    && i <= |p| && restpos <= |rest| && Stop(p, rest, 0) == Stop(p, rest, i)
    && Place(rest, 0, ParamsBefore(p, i)) == Some(restpos)
    && log == Entries(p, rest, i)
  }

  predicate Finished(p: seq<Change>, rest: string, n: nat, log: seq<Handled>) {
    n == Stop(p, rest, 0) && log == Log(p, rest)
  }

  lemma EntriesGrow(p: seq<Change>, rest: string, n: nat)
    ensures Entries(p, rest, n + 1) == Entries(p, rest, n) + [HandledAt(p, rest, n)]
  {
    hide HandledAt;
  }

  lemma StepParam(p: seq<Change>, rest: string, i: nat, restpos: nat, log: seq<Handled>)
    requires OnCourse(p, rest, i, restpos, log) && TakesParam(KindAt(p, i))
    ensures i < |p|
    ensures var next := Next(rest, restpos, STRINGLEN);
      var log' := log + [Handled(KindAt(p, i), Word(rest, restpos, STRINGLEN))];
      && (next != restpos && next > 0 ==> OnCourse(p, rest, i + 1, next, log') && HandledAt(p, rest, i) == log'[i])
      && (next == restpos || next <= 0 ==> Finished(p, rest, i, log'))
  {
    var n := ParamsBefore(p, i);
    var next := Next(rest, restpos, STRINGLEN);
    PlaceNext(rest, 0, n);
    assert Place(rest, 0, n + 1) == if next != restpos && next > 0 then Some(next) else None;
    assert ParamsBefore(p, i + 1) == n + 1;
    EntriesGrow(p, rest, i);
    hide Entries;
  }

  lemma StepPlain(p: seq<Change>, rest: string, i: nat, restpos: nat, log: seq<Handled>)
    requires OnCourse(p, rest, i, restpos, log) && KindAt(p, i) == WithoutParams
    ensures i < |p| && HandledAt(p, rest, i) == Handled(WithoutParams, "")
    ensures OnCourse(p, rest, i + 1, restpos, log + [Handled(WithoutParams, "")])
  {
    EntriesGrow(p, rest, i);
    hide Entries;
  }

  lemma StepUnknown(p: seq<Change>, rest: string, i: nat, restpos: nat, log: seq<Handled>)
    requires OnCourse(p, rest, i, restpos, log) && KindAt(p, i) == Unknown
    ensures Finished(p, rest, i, log)
  {
  }

  // ---------------------------------------------------------------- key and limit

  /** What the channel record keeps of its key and its limit. */
  datatype Locks = Locks(key: string, keyIsSet: bool, limit: string, limitIsSet: bool)

  /** After one change by somebody else; `mode` is the mode line that the channel is meant to have. */
  function Noted(l: Locks, mode: seq<Change>, c: Change, target: string): Locks {
    if c == Change('+', 'k') then
      l.(key := Clip(target, CHANLEN), keyIsSet := l.keyIsSet || Polar(mode, 'k') != '-')
    else if c == Change('-', 'k') then
      if Polar(mode, 'k') != '+' then l.(key := "") else l.(keyIsSet := false)
    else if c == Change('+', 'l') then
      l.(limit := Clip(target, CHANLEN), limitIsSet := Polar(mode, 'l') != '-')
    else if c == Change('-', 'l') then
      if Polar(mode, 'l') != '+' then l.(limit := "") else l.(limitIsSet := false)
    else l
  }

  function NotedUpTo(l: Locks, mode: seq<Change>, p: seq<Change>, rest: string, n: nat): Locks
    requires n <= |p|
  {
    if n == 0 then l
    else Noted(NotedUpTo(l, mode, p, rest, n - 1), mode, p[n - 1], HandledAt(p, rest, n - 1).target)
  }

  lemma NotedNext(l: Locks, mode: seq<Change>, p: seq<Change>, rest: string, n: nat)
    requires n < |p|
    ensures NotedUpTo(l, mode, p, rest, n + 1)
         == Noted(NotedUpTo(l, mode, p, rest, n), mode, p[n], HandledAt(p, rest, n).target)
  {
  }

  // ---------------------------------------------------------------- the mode that restores a channel

  function Sign(polar: char): char {
    if polar == '-' then '-' else '+'
  }

  /** The change of key or limit, if it is not made already. */
  function LockPart(mode: string, letter: char, value: string, isSet: bool): string {
    if value != "" && !isSet then [Sign(Polar(Pairs(mode, 'x'), letter)), letter] else ""
  }

  function RestoringModes(mode: string, l: Locks): string {
    var front := Appended(Filtered(mode, "kl", STRINGLEN), LockPart(mode, 'k', l.key, l.keyIsSet), STRINGLEN);
    Appended(front, LockPart(mode, 'l', l.limit, l.limitIsSet), STRINGLEN)
  }

  function RestoringTargets(l: Locks): string {
    var key := if l.key != "" && !l.keyIsSet then Clip(l.key, STRINGLEN) else "";
    if l.limit == "" || l.limitIsSet then key
    else if key == "" then Clip(l.limit, STRINGLEN)
    else Appended(Appended(key, " ", STRINGLEN), l.limit, STRINGLEN)
  }

  /** One that is to be kept off is forgotten once it is sent. */
  function LocksRestored(mode: string, l: Locks): Locks {
    var p := Pairs(mode, 'x');
    Locks(if l.key != "" && !l.keyIsSet && Polar(p, 'k') == '-' then "" else l.key, l.key != "" || l.keyIsSet,
          if l.limit != "" && !l.limitIsSet && Polar(p, 'l') == '-' then "" else l.limit,
          l.limit != "" || l.limitIsSet)
  }

  lemma NothingAppended(front: string)
    requires |front| <= STRINGLEN
    ensures Appended(front, "", STRINGLEN) == front
  {
  }

  lemma AppendedToNothing(s: string)
    ensures Appended("", s, STRINGLEN) == Clip(s, STRINGLEN)
  {
  }

  lemma NothingFiltered()
    ensures Filtered("", "kl", STRINGLEN) == ""
  {
  }

  lemma FilteredShort(mode: string)
    ensures |Filtered(mode, "kl", STRINGLEN)| <= STRINGLEN
  {
  }

  /** What a reported kind says about a change. */
  predicate LettersOf(kind: Kind, c: Change) {
    && (TakesParam(kind) ==> c.letter !in "KL" && c != Change('-', 'l'))
    && (kind == WithoutParams ==> c.letter !in "kKL" && c != Change('+', 'l'))
  }

  lemma LettersAt(p: seq<Change>, i: nat)
    requires i < |p|
    ensures LettersOf(KindAt(p, i), p[i])
  {
  }

  lemma TextIs(c: Change, sign: char, letter: char)
    requires IsSign(sign) && IsLower(letter)
    ensures SameText([c.polar, c.letter], [sign, letter]) <==> c.polar == sign && ToLower(c.letter) == letter
  {
    var a, b := [c.polar, c.letter], [sign, letter];
    if SameText(a, b) {
      assert ToLower(a[0]) == ToLower(b[0]) && ToLower(a[1]) == ToLower(b[1]);
    }
  }

  class Channel {
    var mode: string
    var key: string
    var keyIsSet: bool
    var limit: string
    var limitIsSet: bool

    constructor (mode: string)
      ensures this.mode == mode && TheLocks() == Locks("", false, "", false)
    {
      this.mode := mode;
      key, keyIsSet, limit, limitIsSet := "", false, "", false;
    }

    function TheLocks(): Locks
      reads this
    {
      Locks(key, keyIsSet, limit, limitIsSet)
    }

    /** A change with a parameter, as the channel record sees it. */
    method NoteWithParams(text: string, target: string, ghost c: Change, ghost kind: Kind)
      requires text == [c.polar, c.letter] && LettersOf(kind, c) && TakesParam(kind)
      modifies this
      ensures mode == old(mode)
      ensures TheLocks() == Noted(old(TheLocks()), Pairs(mode, 'x'), c, target)
    {
      TextIs(c, '+', 'k');
      TextIs(c, '-', 'k');
      TextIs(c, '+', 'l');
      hide SameText, Pairs;
      if SameText(text, "+k") {
        key := Clip(target, CHANLEN);
        var polar := GetModePol(mode, 'k');
        if polar != '-' {
          keyIsSet := true;
        }
      } else if SameText(text, "-k") {
        var polar := GetModePol(mode, 'k');
        if polar != '+' {
          key := "";
        } else {
          keyIsSet := false;
        }
      }
      if SameText(text, "+l") {
        limit := Clip(target, CHANLEN);
        var polar := GetModePol(mode, 'l');
        limitIsSet := polar != '-';
      }
    }

    method NoteWithoutParams(text: string, ghost c: Change)
      requires text == [c.polar, c.letter] && LettersOf(WithoutParams, c)
      modifies this
      ensures mode == old(mode)
      ensures TheLocks() == Noted(old(TheLocks()), Pairs(mode, 'x'), c, "")
    {
      TextIs(c, '-', 'l');
      if SameText(text, "-l") {
        var polar := GetModePol(mode, 'l');
        if polar != '+' {
          limit := "";
        } else {
          limitIsSet := false;
        }
      }
    }

    method Note(text: string, target: string, ghost c: Change, kind: Kind)
      requires text == [c.polar, c.letter] && LettersOf(kind, c)
      requires TakesParam(kind) || (kind == WithoutParams && target == "")
      modifies this
      ensures mode == old(mode)
      ensures TheLocks() == Noted(old(TheLocks()), Pairs(mode, 'x'), c, target)
    {
      hide LettersOf, Noted, Pairs, Channel.TheLocks;
      if TakesParam(kind) {
        NoteWithParams(text, target, c, kind);
      } else {
        NoteWithoutParams(text, c);
      }
    }

    /** The key in `setchanmode`. */
    method RestoreKey(front: string) returns (modeline: string, targets: string)
      requires |front| <= STRINGLEN
      modifies this`key, this`keyIsSet
      ensures modeline == Appended(front, LockPart(mode, 'k', old(key), old(keyIsSet)), STRINGLEN)
      ensures targets == if old(key) != "" && !old(keyIsSet) then Clip(old(key), STRINGLEN) else ""
      ensures TheLocks() == LocksRestored(mode, old(TheLocks())).(limit := limit, limitIsSet := limitIsSet)
    {
      hide Polar, Pairs, Appended;
      NothingAppended(front);
      AppendedToNothing(key);
      modeline, targets := front, "";
      if key != "" && !keyIsSet {
        var polar := GetModePol(mode, 'k');
        modeline := Appended(modeline, if polar != '+' && polar != '-' then "+k" else [polar, 'k'], STRINGLEN);
        targets := Appended(targets, key, STRINGLEN);
        if polar == '-' {
          key := "";
        }
        keyIsSet := true;
      }
    }

    /** The limit in `setchanmode`. */
    method RestoreLimit(front: string, before: string) returns (modeline: string, targets: string)
      requires |front| <= STRINGLEN && |before| <= STRINGLEN
      modifies this`limit, this`limitIsSet
      ensures modeline == Appended(front, LockPart(mode, 'l', old(limit), old(limitIsSet)), STRINGLEN)
      ensures targets == if old(limit) == "" || old(limitIsSet) then before
                         else if before == "" then Clip(old(limit), STRINGLEN)
                         else Appended(Appended(before, " ", STRINGLEN), old(limit), STRINGLEN)
      ensures TheLocks() == LocksRestored(mode, old(TheLocks())).(key := key, keyIsSet := keyIsSet)
    {
      hide Polar, Pairs, Appended;
      NothingAppended(front);
      AppendedToNothing(limit);
      modeline, targets := front, before;
      if limit != "" && !limitIsSet {
        var polar := GetModePol(mode, 'l');
        modeline := Appended(modeline, if polar != '+' && polar != '-' then "+l" else [polar, 'l'], STRINGLEN);
        if targets != "" {
          targets := Appended(targets, " ", STRINGLEN);
        }
        targets := Appended(targets, limit, STRINGLEN);
        if polar == '-' {
          limit := "";
        }
        limitIsSet := true;
      }
    }

    /** `setchanmode`: the modes and the targets to queue. */
    method SetChanMode() returns (modeline: string, targets: string)
      modifies this
      ensures mode == old(mode) && TheLocks() == LocksRestored(mode, old(TheLocks()))
      ensures modeline == RestoringModes(mode, old(TheLocks())) && targets == RestoringTargets(old(TheLocks()))
    {
      hide LockPart, Appended, Polar, Pairs, Copied;
      var front := "";
      if mode != "" {
        front := FilterOutChanModes(mode, "kl", STRINGLEN);
      } else {
        NothingFiltered();
      }
      FilteredShort(mode);
      modeline, targets := RestoreKey(front);
      modeline, targets := RestoreLimit(modeline, targets);
    }

    /** The body of the loop for change `i`. */
    method ReadOne(line: string, rest: string, byMe: bool, i: nat, restpos: nat, log: seq<Handled>, ghost was: Locks)
      returns (gotAll: bool, pos: nat, more: seq<Handled>)
      requires OnCourse(Pairs(line, 'x'), rest, i, restpos, log) && i <= |Pairs(line, 'x')|
      requires TheLocks() == SoFar(byMe, was, Pairs(mode, 'x'), Pairs(line, 'x'), rest, i)
      modifies this
      ensures mode == old(mode)
      ensures var p := Pairs(line, 'x');
        if gotAll then Finished(p, rest, i, more) && TheLocks() == old(TheLocks())
        else i < |p| && OnCourse(p, rest, i + 1, pos, more)
             && TheLocks() == SoFar(byMe, was, Pairs(mode, 'x'), p, rest, i + 1)
    {
      ghost var p := Pairs(line, 'x');
      var kind := NthMode(line, i);
      var target := "";
      pos := restpos;
      if TakesParam(kind) {
        StepParam(p, rest, i, restpos, log);
        var next;
        next, target := Parse(rest, restpos, STRINGLEN);
        if next == restpos || next <= 0 {
          return true, pos, log + [Handled(kind, target)];
        }
        pos := next;
      } else if kind == WithoutParams {
        StepPlain(p, rest, i, restpos, log);
      } else {
        StepUnknown(p, rest, i, restpos, log);
        return true, pos, log;
      }
      more := log + [Handled(kind, target)];
      hide OnCourse, NotedUpTo, HandledAt, KindAt, Pairs, Channel.TheLocks;
      NoteOne(line, target, byMe, kind, i, rest, was);
      gotAll := false;
    }

    /** Take note of change `i`, unless it is the bot's own. */
    method NoteOne(line: string, target: string, byMe: bool, kind: Kind, i: nat, ghost rest: string, ghost was: Locks)
      requires i < |Pairs(line, 'x')| && HandledAt(Pairs(line, 'x'), rest, i) == Handled(kind, target)
      requires kind == KindAt(Pairs(line, 'x'), i) && kind != Unknown && (TakesParam(kind) || target == "")
      requires TheLocks() == SoFar(byMe, was, Pairs(mode, 'x'), Pairs(line, 'x'), rest, i)
      modifies this
      ensures mode == old(mode)
      ensures TheLocks() == SoFar(byMe, was, Pairs(mode, 'x'), Pairs(line, 'x'), rest, i + 1)
    {
      hide LettersOf, Noted, NotedUpTo, HandledAt, KindAt, Pairs, Channel.TheLocks;
      ghost var p := Pairs(line, 'x');
      LettersAt(p, i);
      NotedNext(was, Pairs(mode, 'x'), p, rest, i);
      var text := GetNthMode(line, i + 1);
      if !byMe {
        Note(text, target, p[i], kind);
      }
    }

    /** The loop over the changes of a line that came from `byMe` or from somebody else. */
    method ReadModes(line: string, rest: string, byMe: bool) returns (log: seq<Handled>)
      modifies this
      ensures mode == old(mode)
      ensures var p := Pairs(line, 'x');
        && log == Log(p, rest)
        && TheLocks() == if byMe then old(TheLocks())
                         else NotedUpTo(old(TheLocks()), Pairs(mode, 'x'), p, rest, Stop(p, rest, 0))
    {
      ghost var p, was := Pairs(line, 'x'), TheLocks();
      ghost var n: nat := 0;
      var i: nat, restpos: nat := 0, 0;
      log := [];
      assert OnCourse(p, rest, 0, 0, []);
      assert SoFar(byMe, was, Pairs(mode, 'x'), p, rest, 0) == was;
      var gotAll := false;
      hide OnCourse, Finished, SoFar, Pairs, Stop, Log, Channel.TheLocks;
      while !gotAll
        invariant mode == old(mode) && n <= |p|
        invariant if gotAll then Finished(p, rest, n, log) else n == i && OnCourse(p, rest, i, restpos, log)
        invariant TheLocks() == SoFar(byMe, was, Pairs(mode, 'x'), p, rest, n)
        decreases if gotAll then 0 else |p| + 1 - i
      {
        gotAll, restpos, log := ReadOne(line, rest, byMe, i, restpos, log, was);
        i := i + 1;
        n := if gotAll then n else i;
      }
      FinishedIs(p, rest, n, log);
      SoFarIs(byMe, was, Pairs(mode, 'x'), p, rest, n);
    }
  }

  /** The channel record after `n` changes. */
  function SoFar(byMe: bool, was: Locks, own: seq<Change>, p: seq<Change>, rest: string, n: nat): Locks
    requires n <= |p|
  {
    if byMe then was else NotedUpTo(was, own, p, rest, n)
  }

  lemma SoFarIs(byMe: bool, was: Locks, own: seq<Change>, p: seq<Change>, rest: string, n: nat)
    requires n <= |p|
    ensures SoFar(byMe, was, own, p, rest, n) == if byMe then was else NotedUpTo(was, own, p, rest, n)
  {
  }

  lemma FinishedIs(p: seq<Change>, rest: string, n: nat, log: seq<Handled>)
    requires Finished(p, rest, n, log)
    ensures n == Stop(p, rest, 0) && log == Log(p, rest)
  {
  }

  // ---------------------------------------------------------------- a line as the server writes it

  predicate GoodWord(w: string) {
    0 < |w| < STRINGLEN && NoSpace(w, 0, |w|)
  }

  /** The parameters, each followed by some spaces; only the last one may have none behind it. */
  predicate Laid(words: seq<string>, gaps: seq<nat>) {
    && |gaps| == |words|
    && (forall i :: 0 <= i < |words| ==> GoodWord(words[i]))
    && (forall i :: 0 <= i < |words| - 1 ==> gaps[i] > 0)
  }

  function Params(words: seq<string>, gaps: seq<nat>): string
    requires |gaps| == |words|
  {
    if words == [] then "" else words[0] + Spaces(gaps[0]) + Params(words[1..], gaps[1..])
  }

  lemma LaidTail(words: seq<string>, gaps: seq<nat>)
    requires Laid(words, gaps) && words != []
    ensures Laid(words[1..], gaps[1..])
    ensures words[1..] != [] ==> Params(words[1..], gaps[1..]) != "" && Params(words[1..], gaps[1..])[0] != SPACE
  {
    if words[1..] != [] {
      assert GoodWord(words[1..][0]);
      var w, s := words[1..][0], Params(words[1..], gaps[1..]);
      assert w[0] != SPACE && s[0] == w[0];
    }
  }

  /** From `pos` on a line consists of these words and gaps. */
  predicate LaidFrom(rest: string, pos: nat, words: seq<string>, gaps: seq<nat>) {
    pos <= |rest| && Laid(words, gaps) && rest[pos..] == Params(words, gaps)
  }

  lemma NoWord(rest: string, pos: nat, gaps: seq<nat>)
    requires LaidFrom(rest, pos, [], gaps)
    ensures pos == |rest|
  {
  }

  lemma FirstWord(rest: string, pos: nat, words: seq<string>, gaps: seq<nat>)
    requires LaidFrom(rest, pos, words, gaps) && words != []
    ensures gaps != [] && pos <= |rest|
    ensures var next := pos + |words[0]| + gaps[0];
      && Next(rest, pos, STRINGLEN) == next && pos < next <= |rest| && Word(rest, pos, STRINGLEN) == words[0]
      && LaidFrom(rest, next, words[1..], gaps[1..])
  {
    var w, g, tail := words[0], gaps[0], Params(words[1..], gaps[1..]);
    SpacesAre(g);
    LaidTail(words, gaps);
    assert GoodWord(w);
    assert g == 0 ==> words[1..] == [] && tail == "";
    WordThenGap(rest, pos, w, Spaces(g), tail);
  }

  /** Where no word follows, none is found. */
  lemma AtEnd(s: string, k: nat)
    ensures Word(s, |s|, STRINGLEN) == ""
    ensures Place(s, |s|, k).Some? <==> k == 0
    ensures Place(s, |s|, 0) == Some(|s|)
  {
  }

  lemma PlaceStep(rest: string, pos: nat, k: nat, next: nat)
    requires pos < next <= |rest| && Next(rest, pos, STRINGLEN) == next
    ensures Place(rest, pos, k) == if k == 0 then Some(pos) else Place(rest, next, k - 1)
  {
    hide Next;
  }

  /** The words of a line are found one after the other, and no more than there are. */
  lemma {:induction false} FindsWords(rest: string, pos: nat, words: seq<string>, gaps: seq<nat>, k: nat)
    requires LaidFrom(rest, pos, words, gaps)
    ensures pos <= |rest|
    ensures Place(rest, pos, k).Some? <==> k <= |words|
    ensures k < |words| ==> Word(rest, Place(rest, pos, k).value, STRINGLEN) == words[k]
    ensures k == |words| ==> Place(rest, pos, k).value == |rest|
    decreases k
  {
    hide Place, Word, Next, LaidFrom;
    if words == [] {
      NoWord(rest, pos, gaps);
      AtEnd(rest, k);
    } else {
      FirstWord(rest, pos, words, gaps);
      var next := pos + |words[0]| + gaps[0];
      PlaceStep(rest, pos, k, next);
      if k > 0 {
        FindsWords(rest, next, words[1..], gaps[1..], k - 1);
      }
    }
  }

  predicate Known(p: seq<Change>) {
    forall i :: 0 <= i < |p| ==> KindAt(p, i) != Unknown
  }

  /** Each change with the parameter it is meant to have. */
  function Meant(p: seq<Change>, words: seq<string>, i: nat): Handled {
    var kind, n := KindAt(p, i), ParamsBefore(p, i);
    Handled(kind, if TakesParam(kind) && n < |words| then words[n] else "")
  }

  lemma MeantAt(p: seq<Change>, words: seq<string>, gaps: seq<nat>, i: nat)
    requires Laid(words, gaps) && i < |p| && ParamsBefore(p, i) <= |words|
    ensures HandledAt(p, Params(words, gaps), i) == Meant(p, words, i)
  {
    var rest := Params(words, gaps);
    assert rest[0..] == rest;
    hide Place, Params, Word, Laid, KindAt, ParamsBefore;
    FindsWords(rest, 0, words, gaps, ParamsBefore(p, i));
    AtEnd(rest, 0);
  }

  lemma ReadableAt(p: seq<Change>, words: seq<string>, gaps: seq<nat>, i: nat)
    requires Laid(words, gaps) && i < |p| && ParamsBefore(p, i) <= |words|
    ensures Readable(p, Params(words, gaps), i) <==> KindAt(p, i) != Unknown && ParamsBefore(p, i + 1) <= |words|
  {
    var rest := Params(words, gaps);
    assert rest[0..] == rest;
    assert ParamsBefore(p, i + 1) == ParamsBefore(p, i) + if TakesParam(KindAt(p, i)) then 1 else 0;
    hide Place, Params, Word, Laid, KindAt, ParamsBefore;
    FindsWords(rest, 0, words, gaps, ParamsBefore(p, i) + 1);
  }

  /** The parameters start with the first of them. */
  lemma LaidStarts(words: seq<string>, gaps: seq<nat>)
    requires Laid(words, gaps) && words != []
    ensures Params(words, gaps) != "" && Params(words, gaps)[0] != SPACE
  {
    assert GoodWord(words[0]);
    assert Params(words, gaps)[0] == words[0][0];
  }

  lemma {:induction false} MoreParams(p: seq<Change>, i: nat, j: nat)
    requires i <= j
    ensures ParamsBefore(p, i) <= ParamsBefore(p, j)
    decreases j
  {
    if i < j {
      MoreParams(p, i, j - 1);
    }
  }

  lemma StopIs(p: seq<Change>, rest: string, i: nat, n: nat)
    requires i <= n <= |p| && (forall j :: i <= j < n ==> Readable(p, rest, j)) && (n < |p| ==> !Readable(p, rest, n))
    ensures Stop(p, rest, i) == n
  {
  }

  /** A line of known changes with enough parameters is read in full: every change that takes a parameter gets
      its own, however many spaces stand between them. */
  lemma {:induction false} AllModesRead(p: seq<Change>, words: seq<string>, gaps: seq<nat>)
    requires Known(p) && Laid(words, gaps) && ParamsBefore(p, |p|) <= |words|
    ensures Log(p, Params(words, gaps)) == seq(|p|, i requires 0 <= i => Meant(p, words, i))
  {
    var rest := Params(words, gaps);
    forall i | 0 <= i < |p| ensures Readable(p, rest, i) && HandledAt(p, rest, i) == Meant(p, words, i) {
      MoreParams(p, i + 1, |p|);
      MoreParams(p, i, i + 1);
      MeantAt(p, words, gaps, i);
      ReadableAt(p, words, gaps, i);
    }
    StopIs(p, rest, 0, |p|);
    assert KindAt(p, |p|) == Unknown;
  }

  /** From the server's line to the changes: on a well-formed MODE line that fits the buffers, with enough
      parameters, every change gets its own parameter. */
  lemma {:induction false} ModeMessageRead(m: P.Fields, l: P.Layout, words: seq<string>, gaps: seq<nat>, rooms: P.Rooms)
    requires Laid(words, gaps) && P.WellFormed(m, l, Params(words, gaps)) && P.Fits(m, rooms)
    requires Known(Pairs(m.trailing, 'x')) && ParamsBefore(Pairs(m.trailing, 'x'), |Pairs(m.trailing, 'x')|) <= |words|
    ensures var s := P.Printed(m, l, Params(words, gaps));
      var p := Pairs(P.Parsed(s, rooms).trailing, 'x');
      && p == Pairs(m.trailing, 'x')
      && Log(p, s[P.Rest(s, rooms)..]) == seq(|p|, i requires 0 <= i => Meant(p, words, i))
  {
    P.ParsesPrinted(m, l, Params(words, gaps), rooms);
    AllModesRead(Pairs(m.trailing, 'x'), words, gaps);
  }

  /** With too few parameters the first change that finds none is still acted on, on an empty name, and is the
      last one. */
  lemma {:induction false} MissingParam(p: seq<Change>, words: seq<string>, gaps: seq<nat>, n: nat)
    requires Known(p) && Laid(words, gaps)
    requires n < |p| && TakesParam(KindAt(p, n)) && ParamsBefore(p, n) == |words|
    ensures Log(p, Params(words, gaps)) == seq(n + 1, i requires 0 <= i => Meant(p, words, i))
    ensures Meant(p, words, n).target == ""
  {
    var rest := Params(words, gaps);
    forall i | 0 <= i <= n ensures HandledAt(p, rest, i) == Meant(p, words, i) && (Readable(p, rest, i) <==> i < n) {
      if i < n {
        MoreParams(p, i + 1, n);
        MoreParams(p, i, i + 1);
      }
      MeantAt(p, words, gaps, i);
      ReadableAt(p, words, gaps, i);
    }
    StopIs(p, rest, 0, n);
  }

  /** After changes by somebody else the key is that of the last change of it: its parameter, or none. */
  lemma {:induction false} LastKeyWins(l: Locks, mode: seq<Change>, p: seq<Change>, rest: string, j: nat, n: nat)
    requires j < n <= |p| && p[j].letter == 'k' && forall i :: j < i < n ==> p[i].letter != 'k'
    ensures var key := NotedUpTo(l, mode, p, rest, n).key;
      && (p[j].polar == '+' ==> key == Clip(HandledAt(p, rest, j).target, CHANLEN))
      && (p[j].polar == '-' && Polar(mode, 'k') != '+' ==> key == "")
    decreases n
  {
    hide HandledAt, Polar, NotedUpTo, Clip;
    NotedNext(l, mode, p, rest, n - 1);
    if j < n - 1 {
      LastKeyWins(l, mode, p, rest, j, n - 1);
      assert p[n - 1].letter != 'k';
    }
  }
}
