/** What the bot does about the changes of a channel mode line, in the second half of the MODE loop of parse.c: it
    keeps track of operators and bans and protects the channel. */
module ModeReactions {
  import opened Chars
  import opened Options
  import opened Scheduler
  import opened Batching
  import Wildcards
  import C = ChanModes
  import R = ModeReading

  const MASSMODE_LIMIT := 3
  const REQUESTOP_DELAY := 300

  datatype Member = Member(nick: string, op: bool, voice: bool)

  /** The channel and the bot in it. Whom the bot lets be operator and which bans are permanent is looked up in the
      database; `byMessage` is the bot's flag `m`. */
  datatype Setting = Setting(channel: string, flags: string, me: string, myMask: string, now: int,
                             allowed: set<string>, permanent: set<string>, byMessage: bool)

  /** Who sends the line; `trusted` is a service or a user with flag `s`. */
  datatype Author = Author(nick: string, userhost: string, trusted: bool, server: bool)

  /** What the loop keeps up to date. */
  datatype Guard = Guard(members: seq<Member>, bans: seq<string>, iAmOp: bool, requestOp: Option<int>, setMode: bool,
                         deops: nat, sync: bool)

  /** What is done about a change: modes to set and commands to send; `skips` is the `continue` of the loop. */
  datatype Answer = Answer(guard: Guard, modes: seq<Mmode>, commands: seq<Timed>, skips: bool)

  // ---------------------------------------------------------------- members and bans

  function Set(was: bool, to: Option<bool>): bool {
    if to.Some? then to.value else was
  }

  function Moded(m: Member, op: Option<bool>, voice: Option<bool>): Member {
    Member(m.nick, Set(m.op, op), Set(m.voice, voice))
  }

  /** `changeuser`: the first member of that nick. */
  function Changed(ms: seq<Member>, nick: string, op: Option<bool>, voice: Option<bool>): (r: seq<Member>)
    ensures |r| == |ms|
  {
    if ms == [] then []
    else if SameText(ms[0].nick, nick) then [Moded(ms[0], op, voice)] + ms[1..]
    else [ms[0]] + Changed(ms[1..], nick, op, voice)
  }

  predicate Opless(ms: seq<Member>) {
    forall i :: 0 <= i < |ms| ==> !ms[i].op
  }

  predicate Listed(bans: seq<string>, ban: string) {
    exists i :: 0 <= i < |bans| && SameText(bans[i], ban)
  }

  /** `addnewchannelban` */
  function BanAdded(bans: seq<string>, ban: string): seq<string> {
    if Listed(bans, ban) then bans else bans + [ban]
  }

  /** `delchannelban` */
  function BanDeleted(bans: seq<string>, ban: string): seq<string> {
    if bans == [] then [] else if SameText(bans[0], ban) then bans[1..] else [bans[0]] + BanDeleted(bans[1..], ban)
  }

  // ---------------------------------------------------------------- the book that is kept

  function MembersStep(ms: seq<Member>, h: R.Handled): (r: seq<Member>)
    ensures |r| == |ms|
  {
    match h.kind
    case Op => Changed(ms, h.target, Some(true), None)
    case Deop => Changed(ms, h.target, Some(false), None)
    case Voice => Changed(ms, h.target, None, Some(true))
    case Devoice => Changed(ms, h.target, None, Some(false))
    case _ => ms
  }

  function BansStep(bans: seq<string>, h: R.Handled): seq<string> {
    match h.kind
    case Ban => BanAdded(bans, h.target)
    case Unban => BanDeleted(bans, h.target)
    case _ => bans
  }

  function OpStep(me: string, was: bool, h: R.Handled): bool {
    if (h.kind == C.Op || h.kind == C.Deop) && SameText(me, h.target) then h.kind == C.Op else was
  }

  function Booked(st: Setting, g: Guard, h: R.Handled): Guard {
    var ms := MembersStep(g.members, h);
    g.(members := ms, bans := BansStep(g.bans, h), iAmOp := OpStep(st.me, g.iAmOp, h),
       requestOp := if h.kind == C.Deop && Opless(ms) then Some(st.now + REQUESTOP_DELAY) else g.requestOp)
  }

  // ---------------------------------------------------------------- the answer to one change

  function Whois(st: Setting, nick: string): Timed {
    Timed(st.now, Normal, PRIO_CHANNEL_PROTECTION, None, Truncated("WHOIS " + nick, WRITE_BUFFER_LENGTH))
  }

  function KickForBan(st: Setting, a: Author, mask: string): Timed {
    var text := "KICK " + st.channel + " " + a.nick + " :do NOT ban " + mask + ", that's me!";
    Timed(st.now, Normal, PRIO_CHANNEL_PROTECTION, None, Truncated(text, WRITE_BUFFER_LENGTH))
  }

  function OpAnswer(st: Setting, a: Author, g: Guard, nick: string): Answer {
    if SameText(st.me, nick) || !g.iAmOp then Answer(g, [], [], true)
    else if 'u' !in st.flags || nick in st.allowed then Answer(g, [], [], false)
    else if a.trusted then Answer(g, [], [], true)
    else Answer(g, [Mmode(st.now, "-o", Some(nick))], [], false)
  }

  function DeopAnswer(st: Setting, a: Author, g: Guard, nick: string): Answer {
    if a.trusted || !g.iAmOp then Answer(g, [], [Whois(st, nick)], true)
    else
      var modes := if 'D' in st.flags && nick in st.allowed then [Mmode(st.now, "+o", Some(nick))] else [];
      Answer(g.(deops := g.deops + 1), modes, [Whois(st, nick)], false)
  }

  ghost function BanAnswer(st: Setting, a: Author, g: Guard, mask: string): Answer {
    if !Wildcards.Commits(mask, 0, st.myMask, 0) then Answer(g, [], [], false)
    else if a.trusted then Answer(g, [], [], true)
    else if g.iAmOp && 'b' in st.flags then
      var kick := if SameText(st.me, a.nick) || a.server then [] else [KickForBan(st, a, mask)];
      Answer(g, [Mmode(st.now, "-b", Some(mask))], kick, false)
    else Answer(g, [], [], false)
  }

  function UnbanAnswer(st: Setting, a: Author, g: Guard, mask: string): Answer {
    if !(g.iAmOp && 'e' in st.flags && mask in st.permanent) then Answer(g, [], [], false)
    else if a.trusted then Answer(g, [], [], true)
    else Answer(g.(sync := true), [Mmode(st.now, "+b", Some(mask))], [], false)
  }

  /** The change is in the book already. */
  ghost function AnswerTo(st: Setting, a: Author, g: Guard, h: R.Handled): Answer {
    match h.kind
    case Op => OpAnswer(st, a, g, h.target)
    case Deop => DeopAnswer(st, a, g, h.target)
    case Ban => BanAnswer(st, a, g, h.target)
    case Unban => UnbanAnswer(st, a, g, h.target)
    case WithParams => Answer(g.(setMode := g.setMode || !SameText(st.me, a.nick)), [], [], false)
    case WithoutParams => Answer(g.(setMode := g.setMode || !SameText(st.me, a.nick)), [], [], false)
    case _ => Answer(g, [], [], false)
  }

  /** Too many deops in a row by somebody who may not. */
  predicate Punishes(st: Setting, a: Author, g: Guard) {
    && g.deops > MASSMODE_LIMIT && '@' in a.userhost && !SameText(st.me, a.nick)
    && !a.trusted && g.iAmOp && 'm' in st.flags && !a.server
  }

  function Punishment(st: Setting, a: Author): Mmode {
    Mmode(st.now, "-o", Some(a.nick))
  }

  const NOTICE_DELAY := 3

  function Notice(st: Setting, a: Author): Timed {
    var text := (if st.byMessage then "PRIVMSG " else "NOTICE ") + a.nick + " :do NOT deop >3 users at a time";
    Timed(st.now + NOTICE_DELAY, Normal, PRIO_NOTICE, None, Truncated(text, WRITE_BUFFER_LENGTH))
  }

  /** One round of the loop. */
  ghost function Round(st: Setting, a: Author, g: Guard, h: R.Handled): Answer {
    var x := AnswerTo(st, a, Booked(st, g, h), h);
    if !x.skips && Punishes(st, a, x.guard) then
      x.(guard := x.guard.(deops := 0),
         modes := x.modes + [Punishment(st, a)], commands := x.commands + [Notice(st, a)])
    else x
  }

  /** All rounds; what they ask for, one after the other. */
  ghost function Rounds(st: Setting, a: Author, g: Guard, log: seq<R.Handled>): Answer {
    if log == [] then Answer(g, [], [], false)
    else
      var before := Rounds(st, a, g, log[..|log| - 1]);
      var x := Round(st, a, before.guard, log[|log| - 1]);
      Answer(x.guard, before.modes + x.modes, before.commands + x.commands, false)
  }

  // ---------------------------------------------------------------- who is operator, what is banned

  /** No two members of a nick. */
  predicate Distinct(ms: seq<Member>) {
    forall i, j :: 0 <= i < j < |ms| ==> !SameText(ms[i].nick, ms[j].nick)
  }

  lemma {:induction false} ChangedAt(ms: seq<Member>, nick: string, op: Option<bool>, voice: Option<bool>, i: nat)
    requires Distinct(ms) && i < |ms|
    ensures Changed(ms, nick, op, voice)[i] ==
      if SameText(ms[i].nick, nick) then Moded(ms[i], op, voice) else ms[i]
  {
    if SameText(ms[0].nick, nick) {
      if i > 0 {
        assert !SameText(ms[0].nick, ms[i].nick);
      }
    } else if i > 0 {
      ChangedAt(ms[1..], nick, op, voice, i - 1);
    }
  }

  /** Whether the last change of kind `on` or `off` for that text was `on`. */
  function LastWas(log: seq<R.Handled>, on: C.Kind, off: C.Kind, text: string, was: bool): bool {
    if log == [] then was
    else
      var h := log[|log| - 1];
      if (h.kind == on || h.kind == off) && SameText(text, h.target) then h.kind == on
      else LastWas(log[..|log| - 1], on, off, text, was)
  }

  /** A member after the line. */
  function MemberAfter(m: Member, log: seq<R.Handled>): Member {
    Member(m.nick, LastWas(log, C.Op, C.Deop, m.nick, m.op), LastWas(log, C.Voice, C.Devoice, m.nick, m.voice))
  }

  /** Whatever else is done about a change, it is kept book of. */
  lemma RoundKeepsBook(st: Setting, a: Author, g: Guard, h: R.Handled)
    ensures var r := Round(st, a, g, h).guard;
      && r.members == MembersStep(g.members, h) && r.bans == BansStep(g.bans, h)
      && r.iAmOp == OpStep(st.me, g.iAmOp, h)
  {
    hide SameText, MembersStep, BansStep, OpStep, Wildcards.Commits, Whois, KickForBan, Opless;
  }

  lemma StepAt(ms: seq<Member>, h: R.Handled, i: nat)
    requires Distinct(ms) && i < |ms|
    ensures var m, r := ms[i], MembersStep(ms, h)[i];
      && r.nick == m.nick
      && r.op == (if (h.kind == C.Op || h.kind == C.Deop) && SameText(m.nick, h.target) then h.kind == C.Op else m.op)
      && r.voice == (if (h.kind == C.Voice || h.kind == C.Devoice) && SameText(m.nick, h.target) then h.kind == C.Voice
                     else m.voice)
  {
    ChangedAt(ms, h.target, Some(true), None, i);
    ChangedAt(ms, h.target, Some(false), None, i);
    ChangedAt(ms, h.target, None, Some(true), i);
    ChangedAt(ms, h.target, None, Some(false), i);
    hide Changed, SameText, Distinct;
  }

  /** After every line: each member is operator, and has voice, as the last change for the nick says, and as before
      without one; and so is the bot. */
  lemma {:induction false} BookIsRight(st: Setting, a: Author, g: Guard, log: seq<R.Handled>)
    requires Distinct(g.members)
    ensures var r := Rounds(st, a, g, log).guard;
      && |r.members| == |g.members|
      && (forall i :: 0 <= i < |g.members| ==> r.members[i] == MemberAfter(g.members[i], log))
      && r.iAmOp == LastWas(log, C.Op, C.Deop, st.me, g.iAmOp)
    decreases |log|
  {
    if log != [] {
      var n := |log| - 1;
      BookIsRight(st, a, g, log[..n]);
      var b := Rounds(st, a, g, log[..n]).guard;
      RoundKeepsBook(st, a, b, log[n]);
      forall i | 0 <= i < |g.members|
        ensures MembersStep(b.members, log[n])[i] == MemberAfter(g.members[i], log)
      {
        StepAt(b.members, log[n], i);
        hide SameText, MembersStep;
      }
      hide Round, MemberAfter, MembersStep;
    }
  }

  // ---------------------------------------------------------------- whom the bot acts against

  /** A trusted author meets no resistance, whatever the line: nothing is set or sent but the WHOIS after a deop. */
  lemma {:induction false} TrustedUnopposed(st: Setting, a: Author, g: Guard, log: seq<R.Handled>)
    requires a.trusted
    ensures var r := Rounds(st, a, g, log);
      r.modes == [] && !r.guard.sync == !g.sync && forall t :: t in r.commands ==> exists n :: t == Whois(st, n)
    decreases |log|
  {
    if log != [] {
      var n := |log| - 1;
      TrustedUnopposed(st, a, g, log[..n]);
      var b := Rounds(st, a, g, log[..n]);
      TrustedRound(st, a, b.guard, log[n]);
      hide Round, Whois;
    }
  }

  lemma TrustedRound(st: Setting, a: Author, g: Guard, h: R.Handled)
    requires a.trusted
    ensures var x := Round(st, a, g, h);
      x.modes == [] && x.guard.sync == g.sync && (x.commands == [] || x.commands == [Whois(st, h.target)])
  {
    hide SameText, MembersStep, BansStep, OpStep, Wildcards.Commits, Whois, KickForBan, Opless;
  }

  /** Whether the bot, operator or not before the line, is operator after it. */
  function OpAfter(me: string, was: bool, log: seq<R.Handled>): bool {
    LastWas(log, C.Op, C.Deop, me, was)
  }

  /** Deops in a line that the bot is operator after. */
  function Deops(me: string, was: bool, log: seq<R.Handled>): nat {
    if log == [] then 0 else Deops(me, was, log[..|log| - 1]) + LastDeop(me, was, log)
  }

  function LastDeop(me: string, was: bool, log: seq<R.Handled>): (n: nat)
    requires log != []
    ensures n <= 1
  {
    if log[|log| - 1].kind == C.Deop && OpAfter(me, was, log) then 1 else 0
  }

  /** Somebody whom the bot can and may punish, as long as it is operator itself. */
  predicate Punishable(st: Setting, a: Author) {
    '@' in a.userhost && !SameText(st.me, a.nick) && !a.trusted && 'm' in st.flags && !a.server
  }

  /** The mode that undoes an unwelcome change: an operator who may not be, the loss of one who may, a ban of the bot,
      the end of a permanent ban; each if the channel has the flag for it. */
  ghost function Against(st: Setting, h: R.Handled): seq<Mmode> {
    match h.kind
    case Op =>
      if 'u' in st.flags && h.target !in st.allowed && !SameText(st.me, h.target)
      then [Mmode(st.now, "-o", Some(h.target))] else []
    case Deop => if 'D' in st.flags && h.target in st.allowed then [Mmode(st.now, "+o", Some(h.target))] else []
    case Ban =>
      if 'b' in st.flags && Wildcards.Commits(h.target, 0, st.myMask, 0)
      then [Mmode(st.now, "-b", Some(h.target))] else []
    case Unban => if 'e' in st.flags && h.target in st.permanent then [Mmode(st.now, "+b", Some(h.target))] else []
    case _ => []
  }

  /** The same for all changes that the bot is operator after. */
  ghost function AllAgainst(st: Setting, was: bool, log: seq<R.Handled>): seq<Mmode> {
    if log == [] then [] else AllAgainst(st, was, log[..|log| - 1]) + LastAgainst(st, was, log)
  }

  ghost function LastAgainst(st: Setting, was: bool, log: seq<R.Handled>): seq<Mmode>
    requires log != []
  {
    if OpAfter(st.me, was, log) then Against(st, log[|log| - 1]) else []
  }

  /** How often a mode is asked for. */
  function Count(ms: seq<Mmode>, m: Mmode): nat {
    multiset(ms)[m]
  }

  lemma CountConcat(x: seq<Mmode>, y: seq<Mmode>, m: Mmode)
    ensures Count(x + y, m) == Count(x, m) + Count(y, m)
  {
  }

  const FOURTH := MASSMODE_LIMIT + 1

  /** After `d` deops, the strikes so far and the deops since the last one. */
  function Strikes(st: Setting, a: Author, d: nat): nat {
    if Punishable(st, a) then d / FOURTH else 0
  }

  function Since(st: Setting, a: Author, d: nat): nat {
    if Punishable(st, a) then d % FOURTH else d
  }

  function Times(m: Mmode, n: nat): seq<Mmode> {
    seq(n, _ => m)
  }

  /** The answer itself, and whether the strikes are looked at. */
  lemma AnswerIs(st: Setting, a: Author, g: Guard, h: R.Handled)
    requires !a.trusted
    ensures var x, op := AnswerTo(st, a, Booked(st, g, h), h), OpStep(st.me, g.iAmOp, h);
      var n := if h.kind == C.Deop && op then 1 else 0;
      && x.guard.iAmOp == op && x.guard.deops == g.deops + n && (n == 1 ==> !x.skips)
      && x.modes == if op then Against(st, h) else []
  {
    hide SameText, MembersStep, BansStep, Wildcards.Commits, Whois, KickForBan, Opless;
  }

  /** The strikes go up with every fourth deop. */
  lemma StrikesGrow(st: Setting, a: Author, d: nat, n: nat)
    requires n <= 1
    ensures Strikes(st, a, d + n) == Strikes(st, a, d)
      + if Punishable(st, a) && Since(st, a, d) + n > MASSMODE_LIMIT then 1 else 0
    ensures Since(st, a, d + n) == if Punishable(st, a) && Since(st, a, d) + n > MASSMODE_LIMIT then 0
      else Since(st, a, d) + n
  {
    hide Punishable;
  }

  /** One round, after which the bot is operator or not, and `e` deops have been met. */
  lemma OneRound(st: Setting, a: Author, g: Guard, h: R.Handled, d: nat, op: bool, e: nat, last: seq<Mmode>)
    requires !a.trusted && g.deops == Since(st, a, d) && op == OpStep(st.me, g.iAmOp, h)
    requires e == d + (if h.kind == C.Deop && op then 1 else 0) && last == if op then Against(st, h) else []
    ensures var x := Round(st, a, g, h);
      && x.guard.deops == Since(st, a, e) && Strikes(st, a, e) >= Strikes(st, a, d)
      && x.modes == last + Times(Punishment(st, a), Strikes(st, a, e) - Strikes(st, a, d))
  {
    AnswerIs(st, a, g, h);
    StrikesGrow(st, a, d, e - d);
    assert Times(Punishment(st, a), 0) == [] && Times(Punishment(st, a), 1) == [Punishment(st, a)];
    assert Punishable(st, a) ==> Since(st, a, d) <= MASSMODE_LIMIT;
    hide SameText, AnswerTo, Booked, Against, Times, Strikes, OpStep;
  }

  lemma {:induction false} TimesCount(m: Mmode, n: nat, x: Mmode)
    ensures Count(Times(m, n), x) == if x == m then n else 0
  {
    if n > 0 {
      TimesCount(m, n - 1, x);
      assert Times(m, n) == Times(m, n - 1) + [m];
    }
  }

  /** The same round, counted. */
  lemma OneRoundCounts(st: Setting, a: Author, g: Guard, h: R.Handled, d: nat, op: bool, e: nat, last: seq<Mmode>,
                       m: Mmode)
    requires !a.trusted && g.deops == Since(st, a, d) && op == OpStep(st.me, g.iAmOp, h)
    requires e == d + (if h.kind == C.Deop && op then 1 else 0) && last == if op then Against(st, h) else []
    ensures Round(st, a, g, h).guard.deops == Since(st, a, e)
    ensures Count(Round(st, a, g, h).modes, m)
         == Count(last, m) + if m == Punishment(st, a) then Strikes(st, a, e) - Strikes(st, a, d) else 0
  {
    OneRound(st, a, g, h, d, op, e, last);
    hide *;
    var n := Strikes(st, a, e) - Strikes(st, a, d);
    CountConcat(last, Times(Punishment(st, a), n), m);
    TimesCount(Punishment(st, a), n, m);
  }

  lemma RoundsLast(st: Setting, a: Author, g: Guard, log: seq<R.Handled>)
    requires log != []
    ensures var init, h := log[..|log| - 1], log[|log| - 1];
      var before := Rounds(st, a, g, init);
      var x := Round(st, a, before.guard, h);
      && Rounds(st, a, g, log).guard == x.guard && Rounds(st, a, g, log).modes == before.modes + x.modes
      && Rounds(st, a, g, log).guard.iAmOp == OpStep(st.me, before.guard.iAmOp, h)
  {
    RoundKeepsBook(st, a, Rounds(st, a, g, log[..|log| - 1]).guard, log[|log| - 1]);
    hide Round, OpStep;
  }

  lemma {:induction false} OpIs(st: Setting, a: Author, g: Guard, log: seq<R.Handled>)
    ensures Rounds(st, a, g, log).guard.iAmOp == OpAfter(st.me, g.iAmOp, log)
    decreases |log|
  {
    if log != [] {
      OpIs(st, a, g, log[..|log| - 1]);
      RoundsLast(st, a, g, log);
      hide Round, SameText, Rounds;
    }
  }

  /** What the last round adds, `d` being the deops before it. */
  ghost predicate Adds(st: Setting, a: Author, was: bool, log: seq<R.Handled>, d: nat, before: Answer, after: Answer,
                       m: Mmode)
    requires log != []
  {
    var e := d + LastDeop(st.me, was, log);
    && after.guard.deops == Since(st, a, e)
    && Count(after.modes, m) == Count(before.modes, m) + Count(LastAgainst(st, was, log), m)
         + if m == Punishment(st, a) then Strikes(st, a, e) - Strikes(st, a, d) else 0
  }

  lemma LastIs(st: Setting, was: bool, log: seq<R.Handled>)
    requires log != []
    ensures var h, op := log[|log| - 1], OpAfter(st.me, was, log);
      && LastDeop(st.me, was, log) == (if h.kind == C.Deop && op then 1 else 0)
      && LastAgainst(st, was, log) == if op then Against(st, h) else []
  {
    hide OpAfter, Against;
  }

  lemma RoundAdds(st: Setting, a: Author, was: bool, log: seq<R.Handled>, d: nat, before: Answer, m: Mmode)
    requires !a.trusted && log != [] && before.guard.deops == Since(st, a, d)
    requires OpStep(st.me, before.guard.iAmOp, log[|log| - 1]) == OpAfter(st.me, was, log)
    ensures var x := Round(st, a, before.guard, log[|log| - 1]);
      Adds(st, a, was, log, d, before, Answer(x.guard, before.modes + x.modes, [], false), m)
  {
    hide Round, OpStep, OpAfter, Against, Punishment, Count, Strikes, Since, LastDeop, LastAgainst;
    var h := log[|log| - 1];
    LastIs(st, was, log);
    OneRoundCounts(st, a, before.guard, h, d, OpAfter(st.me, was, log), d + LastDeop(st.me, was, log),
                   LastAgainst(st, was, log), m);
    CountConcat(before.modes, Round(st, a, before.guard, h).modes, m);
  }

  lemma LastRound(st: Setting, a: Author, g: Guard, log: seq<R.Handled>, d: nat, before: Answer, m: Mmode)
    requires !a.trusted && log != [] && before == Rounds(st, a, g, log[..|log| - 1])
    requires before.guard.deops == Since(st, a, d)
    ensures Adds(st, a, g.iAmOp, log, d, before, Rounds(st, a, g, log), m)
  {
    hide Round, Rounds, OpStep, OpAfter, Punishment, Count, Strikes, Since, LastDeop, LastAgainst;
    OpIs(st, a, g, log);
    RoundsLast(st, a, g, log);
    RoundAdds(st, a, g.iAmOp, log, d, before, m);
  }

  /** The modes asked for are, counted, those against unwelcome changes and those for the strikes. */
  ghost predicate Guarded(st: Setting, a: Author, was: bool, log: seq<R.Handled>, r: Answer, m: Mmode) {
    var d := Deops(st.me, was, log);
    && r.guard.deops == Since(st, a, d)
    && Count(r.modes, m) == Count(AllAgainst(st, was, log), m) + if m == Punishment(st, a) then Strikes(st, a, d) else 0
  }

  lemma OneMoreGuarded(st: Setting, a: Author, g: Guard, log: seq<R.Handled>, m: Mmode)
    requires !a.trusted && log != []
    requires Guarded(st, a, g.iAmOp, log[..|log| - 1], Rounds(st, a, g, log[..|log| - 1]), m)
    ensures Guarded(st, a, g.iAmOp, log, Rounds(st, a, g, log), m)
  {
    hide Rounds, LastDeop, LastAgainst, Punishment, Strikes, Since, Count, AllAgainst, Deops;
    var init, was := log[..|log| - 1], g.iAmOp;
    var d := Deops(st.me, was, init);
    AgainstLast(st, was, log);
    LastRound(st, a, g, log, d, Rounds(st, a, g, init), m);
    CountConcat(AllAgainst(st, was, init), LastAgainst(st, was, log), m);
  }

  lemma AgainstLast(st: Setting, was: bool, log: seq<R.Handled>)
    requires log != []
    ensures AllAgainst(st, was, log) == AllAgainst(st, was, log[..|log| - 1]) + LastAgainst(st, was, log)
    ensures Deops(st.me, was, log) == Deops(st.me, was, log[..|log| - 1]) + LastDeop(st.me, was, log)
  {
  }

  /** What a line by somebody who is not trusted makes the bot set, exactly: against each unwelcome change after which
      it is operator the mode that undoes it, and after every fourth such deop, by somebody punishable, a `-o` for
      him. */
  lemma {:induction false} GuardsExactly(st: Setting, a: Author, g: Guard, log: seq<R.Handled>, m: Mmode)
    requires !a.trusted && g.deops == 0
    ensures Guarded(st, a, g.iAmOp, log, Rounds(st, a, g, log), m)
    decreases |log|
  {
    if log == [] {
      StrikesGrow(st, a, 0, 0);
    } else {
      GuardsExactly(st, a, g, log[..|log| - 1], m);
      OneMoreGuarded(st, a, g, log, m);
      hide Guarded, Rounds;
    }
  }

  /** Without being operator it sets nothing. */
  lemma {:induction false} Powerless(st: Setting, a: Author, g: Guard, log: seq<R.Handled>)
    requires forall k :: 0 <= k <= |log| ==> !LastWas(log[..k], C.Op, C.Deop, st.me, g.iAmOp)
    ensures Rounds(st, a, g, log).modes == [] && !Rounds(st, a, g, log).guard.iAmOp
    decreases |log|
  {
    assert log[..|log|] == log;
    if log == [] {
      assert !LastWas(log[..0], C.Op, C.Deop, st.me, g.iAmOp);
    } else {
      var n := |log| - 1;
      forall k | 0 <= k <= n ensures log[..n][..k] == log[..k] {
      }
      Powerless(st, a, g, log[..n]);
      RoundsLast(st, a, g, log);
      PowerlessRound(st, a, Rounds(st, a, g, log[..n]).guard, log[n]);
      hide Round, SameText, Rounds;
    }
  }

  lemma PowerlessRound(st: Setting, a: Author, g: Guard, h: R.Handled)
    requires !g.iAmOp && !(h.kind == C.Op && SameText(st.me, h.target))
    ensures Round(st, a, g, h).modes == [] && !Round(st, a, g, h).guard.iAmOp
  {
    hide SameText, MembersStep, BansStep, Wildcards.Commits, Whois, KickForBan, Opless;
  }

  // ---------------------------------------------------------------- the list of bans

  /** No ban twice. */
  predicate NoneTwice(bans: seq<string>) {
    forall i, j :: 0 <= i < j < |bans| ==> !SameText(bans[i], bans[j])
  }

  lemma AddedIs(bans: seq<string>, ban: string, m: string)
    requires NoneTwice(bans)
    ensures NoneTwice(BanAdded(bans, ban))
    ensures Listed(BanAdded(bans, ban), m) <==> Listed(bans, m) || SameText(m, ban)
  {
    var r := BanAdded(bans, ban);
    if i :| 0 <= i < |bans| && SameText(bans[i], m) {
      assert SameText(r[i], m);
    }
    if SameText(m, ban) {
      if i :| 0 <= i < |bans| && SameText(bans[i], ban) {
        assert SameText(r[i], m);
      } else {
        assert SameText(r[|bans|], m);
      }
    }
  }

  lemma {:induction false} DeletedIs(bans: seq<string>, ban: string, m: string)
    requires NoneTwice(bans)
    ensures NoneTwice(BanDeleted(bans, ban))
    ensures Listed(BanDeleted(bans, ban), m) <==> Listed(bans, m) && !SameText(m, ban)
    ensures forall x :: x in BanDeleted(bans, ban) ==> x in bans
  {
    if bans != [] {
      var b, rest := bans[0], bans[1..];
      assert bans == [b] + rest;
      ListedFirst(b, rest, m);
      if SameText(b, ban) {
        forall i | 0 <= i < |rest| ensures !SameText(rest[i], ban) {
          assert !SameText(bans[0], bans[i + 1]);
        }
      } else {
        DeletedIs(rest, ban, m);
        var r := BanDeleted(rest, ban);
        ListedFirst(b, r, m);
        forall j | 0 <= j < |r| ensures !SameText(b, r[j]) {
          assert r[j] in rest;
          var i :| 0 <= i < |rest| && rest[i] == r[j];
          assert !SameText(bans[0], bans[i + 1]);
        }
      }
    }
  }

  lemma ListedFirst(b: string, rest: seq<string>, m: string)
    ensures Listed([b] + rest, m) <==> SameText(b, m) || Listed(rest, m)
  {
    var all := [b] + rest;
    assert SameText(b, m) ==> SameText(all[0], m);
    if i :| 0 <= i < |rest| && SameText(rest[i], m) {
      assert SameText(all[i + 1], m);
    }
  }

  /** After every line: a ban is listed as the last change of it says, and as before without one. */
  lemma {:induction false} BansAreRight(st: Setting, a: Author, g: Guard, log: seq<R.Handled>, m: string)
    requires NoneTwice(g.bans)
    ensures var r := Rounds(st, a, g, log).guard;
      NoneTwice(r.bans) && (Listed(r.bans, m) <==> LastWas(log, C.Ban, C.Unban, m, Listed(g.bans, m)))
    decreases |log|
  {
    if log != [] {
      var n := |log| - 1;
      BansAreRight(st, a, g, log[..n], m);
      var b := Rounds(st, a, g, log[..n]).guard;
      RoundKeepsBook(st, a, b, log[n]);
      AddedIs(b.bans, log[n].target, m);
      DeletedIs(b.bans, log[n].target, m);
      hide Round, SameText, Listed, NoneTwice, BanAdded, BanDeleted;
    }
  }
}
