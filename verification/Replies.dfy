/** The commands that the bot sends because of a mode line, and what else it takes from one. */
module Replies {
  import opened Chars
  import opened Options
  import opened Scheduler
  import opened ModeReactions
  import Wildcards
  import C = ChanModes
  import R = ModeReading

  // ---------------------------------------------------------------- commands

  /** What is sent for one change, the bot being operator after it or not: a WHOIS of whoever was deopped; and a KICK
      for a ban that matches the bot, if it may answer with one. */
  ghost function SentFor(st: Setting, a: Author, op: bool, h: R.Handled): seq<Timed> {
    if h.kind == C.Deop then [Whois(st, h.target)]
    else if h.kind == C.Ban && Kicks(st, a, op) && Wildcards.Commits(h.target, 0, st.myMask, 0)
    then [KickForBan(st, a, h.target)]
    else []
  }

  /** Somebody who is kicked for a ban of the bot: neither trusted nor a server nor the bot itself, as long as it is
      operator, on a channel with flag `b`. */
  predicate Kicks(st: Setting, a: Author, op: bool) {
    op && 'b' in st.flags && !a.trusted && !a.server && !SameText(st.me, a.nick)
  }

  /** The same for a line, with a notice behind every fourth deop. */
  ghost function SentForAll(st: Setting, a: Author, was: bool, log: seq<R.Handled>): seq<Timed> {
    if log == [] then []
    else
      var init := log[..|log| - 1];
      SentForAll(st, a, was, init) + SentFor(st, a, OpAfter(st.me, was, log), log[|log| - 1])
        + if Strikes(st, a, Deops(st.me, was, log)) > Strikes(st, a, Deops(st.me, was, init)) then [Notice(st, a)]
          else []
  }

  lemma AnswerSends(st: Setting, a: Author, g: Guard, h: R.Handled)
    ensures AnswerTo(st, a, Booked(st, g, h), h).commands == SentFor(st, a, OpStep(st.me, g.iAmOp, h), h)
  {
    hide SameText, MembersStep, BansStep, Wildcards.Commits, Whois, KickForBan, Opless;
  }

  lemma RoundSends(st: Setting, a: Author, g: Guard, h: R.Handled, d: nat, op: bool, e: nat)
    requires !a.trusted ==> g.deops == Since(st, a, d)
    requires op == OpStep(st.me, g.iAmOp, h) && e == d + (if h.kind == C.Deop && op then 1 else 0)
    ensures Round(st, a, g, h).commands
      == SentFor(st, a, op, h) + if Strikes(st, a, e) > Strikes(st, a, d) then [Notice(st, a)] else []
  {
    AnswerSends(st, a, g, h);
    if !a.trusted {
      AnswerIs(st, a, g, h);
      StrikesGrow(st, a, d, e - d);
    }
    hide SameText, AnswerTo, Booked, Against, OpStep, SentFor, Notice;
  }

  /** What a line makes the bot send, exactly and in order. */
  lemma {:induction false} RepliesExactly(st: Setting, a: Author, g: Guard, log: seq<R.Handled>)
    requires g.deops == 0
    ensures Rounds(st, a, g, log).commands == SentForAll(st, a, g.iAmOp, log)
    ensures !a.trusted ==> Rounds(st, a, g, log).guard.deops == Since(st, a, Deops(st.me, g.iAmOp, log))
    decreases |log|
  {
    hide Round, SentFor, OpAfter, Strikes, Notice, Since, Deops;
    if log != [] {
      var init, h := log[..|log| - 1], log[|log| - 1];
      RepliesExactly(st, a, g, init);
      DeopsAre(st, a, g, log);
      RoundIs(st, a, g, log);
      LastIs(st, g.iAmOp, log);
      AgainstLast(st, g.iAmOp, log);
      var d := Deops(st.me, g.iAmOp, init);
      RoundSends(st, a, Rounds(st, a, g, init).guard, h, d, OpAfter(st.me, g.iAmOp, log), Deops(st.me, g.iAmOp, log));
    } else if !a.trusted {
      DeopsAre(st, a, g, log);
    }
  }

  lemma DeopsAre(st: Setting, a: Author, g: Guard, log: seq<R.Handled>)
    requires g.deops == 0
    ensures !a.trusted ==> Rounds(st, a, g, log).guard.deops == Since(st, a, Deops(st.me, g.iAmOp, log))
  {
    if !a.trusted {
      GuardsExactly(st, a, g, log, Punishment(st, a));
    }
    hide Rounds;
  }

  lemma RoundIs(st: Setting, a: Author, g: Guard, log: seq<R.Handled>)
    requires log != []
    ensures var before := Rounds(st, a, g, log[..|log| - 1]);
      && Rounds(st, a, g, log).commands == before.commands + Round(st, a, before.guard, log[|log| - 1]).commands
      && OpStep(st.me, before.guard.iAmOp, log[|log| - 1]) == OpAfter(st.me, g.iAmOp, log)
  {
    OpIs(st, a, g, log);
    RoundsLast(st, a, g, log);
    hide Round, OpStep, OpAfter;
  }

  // ---------------------------------------------------------------- asking for operator, setting the mode again

  /** After which change of a line the channel is left without an operator by a deop. */
  predicate LeftOpless(ms: seq<Member>, log: seq<R.Handled>, k: nat) {
    k < |log| && log[k].kind == C.Deop && forall i :: 0 <= i < |ms| ==> !MemberAfter(ms[i], log[..k + 1]).op
  }

  ghost predicate EverOpless(ms: seq<Member>, log: seq<R.Handled>) {
    exists k :: LeftOpless(ms, log, k)
  }

  lemma BookedIs(st: Setting, a: Author, g: Guard, h: R.Handled)
    ensures var x := Round(st, a, g, h).guard;
      && x.requestOp == (if h.kind == C.Deop && Opless(MembersStep(g.members, h)) then Some(st.now + 300)
                         else g.requestOp)
      && x.setMode == (g.setMode || ((h.kind == C.WithParams || h.kind == C.WithoutParams) && !SameText(st.me, a.nick)))
  {
    hide SameText, MembersStep, BansStep, OpStep, Wildcards.Commits, Whois, KickForBan, Opless;
  }

  /** The bot asks to be made operator five minutes after the last operator was deopped, and only then. */
  lemma {:induction false} AsksForOp(st: Setting, a: Author, g: Guard, log: seq<R.Handled>)
    requires Distinct(g.members)
    ensures Rounds(st, a, g, log).guard.requestOp
      == if EverOpless(g.members, log) then Some(st.now + 300) else g.requestOp
    decreases |log|
  {
    if log != [] {
      AsksForOp(st, a, g, log[..|log| - 1]);
      OneMoreChange(g.members, log);
      LastOpless(st, a, g, log);
      hide LeftOpless, EverOpless, Rounds, Round;
    }
  }

  /** The last change, too. */
  lemma OneMoreChange(ms: seq<Member>, log: seq<R.Handled>)
    requires log != []
    ensures EverOpless(ms, log) <==> EverOpless(ms, log[..|log| - 1]) || LeftOpless(ms, log, |log| - 1)
  {
    var init := log[..|log| - 1];
    forall k: nat | k < |init| ensures LeftOpless(ms, init, k) <==> LeftOpless(ms, log, k) {
      assert init[..k + 1] == log[..k + 1] && init[k] == log[k];
      hide MemberAfter;
    }
    assert forall k: nat :: LeftOpless(ms, log, k) ==> k < |log|;
    assert forall k: nat :: LeftOpless(ms, init, k) ==> k < |init|;
    hide LeftOpless;
  }

  lemma LastOpless(st: Setting, a: Author, g: Guard, log: seq<R.Handled>)
    requires Distinct(g.members) && log != []
    ensures Rounds(st, a, g, log).guard.requestOp
      == if LeftOpless(g.members, log, |log| - 1) then Some(st.now + 300)
         else Rounds(st, a, g, log[..|log| - 1]).guard.requestOp
  {
    hide Round, MembersStep, Opless, MemberAfter, Distinct, SameText, LastWas;
    var n := |log| - 1;
    var b, h := Rounds(st, a, g, log[..n]).guard, log[n];
    assert Rounds(st, a, g, log).guard == Round(st, a, b, h).guard && log[..n + 1] == log;
    BookIsRight(st, a, g, log);
    RoundKeepsBook(st, a, b, h);
    BookedIs(st, a, b, h);
    hide Rounds;
    OplessIs(g.members, MembersStep(b.members, h), log);
  }

  lemma OplessIs(ms: seq<Member>, after: seq<Member>, log: seq<R.Handled>)
    requires |after| == |ms| && forall i :: 0 <= i < |ms| ==> after[i] == MemberAfter(ms[i], log)
    ensures Opless(after) <==> forall i :: 0 <= i < |ms| ==> !MemberAfter(ms[i], log).op
  {
    hide MemberAfter;
  }

  /** The channel mode is set again after a line by somebody else that changes one. */
  lemma {:induction false} SetsModeAgain(st: Setting, a: Author, g: Guard, log: seq<R.Handled>)
    ensures Rounds(st, a, g, log).guard.setMode
      <==> || g.setMode
           || (!SameText(st.me, a.nick)
               && exists h :: h in log && (h.kind == C.WithParams || h.kind == C.WithoutParams))
    decreases |log|
  {
    if log != [] {
      var init, h := log[..|log| - 1], log[|log| - 1];
      SetsModeAgain(st, a, g, init);
      BookedIs(st, a, Rounds(st, a, g, init).guard, h);
      assert log == init + [h];
      hide Round, SameText;
    }
  }

  /** Whether change `i` takes a permanent ban away that the bot may set again. */
  predicate TakesPermanent(st: Setting, a: Author, was: bool, log: seq<R.Handled>, i: nat) {
    && i < |log| && log[i].kind == C.Unban && log[i].target in st.permanent && 'e' in st.flags && !a.trusted
    && OpAfter(st.me, was, log[..i + 1])
  }

  ghost predicate EverTakesPermanent(st: Setting, a: Author, was: bool, log: seq<R.Handled>) {
    exists i :: TakesPermanent(st, a, was, log, i)
  }

  lemma OneMoreTaken(st: Setting, a: Author, was: bool, log: seq<R.Handled>)
    requires log != []
    ensures EverTakesPermanent(st, a, was, log)
       <==> || EverTakesPermanent(st, a, was, log[..|log| - 1])
            || TakesPermanent(st, a, was, log, |log| - 1)
  {
    var init := log[..|log| - 1];
    forall k: nat | k < |init| ensures TakesPermanent(st, a, was, init, k) <==> TakesPermanent(st, a, was, log, k) {
      assert init[..k + 1] == log[..k + 1] && init[k] == log[k];
      hide OpAfter;
    }
    assert forall k: nat :: TakesPermanent(st, a, was, log, k) ==> k < |log|;
    assert forall k: nat :: TakesPermanent(st, a, was, init, k) ==> k < |init|;
    hide TakesPermanent;
  }

  lemma SyncIs(st: Setting, a: Author, g: Guard, h: R.Handled)
    ensures Round(st, a, g, h).guard.sync
      <==> || g.sync
           || (h.kind == C.Unban && h.target in st.permanent && 'e' in st.flags && !a.trusted
               && OpStep(st.me, g.iAmOp, h))
  {
    hide SameText, MembersStep, BansStep, Wildcards.Commits, Whois, KickForBan, Opless;
  }

  /** The permanent bans are set again exactly after a line that takes one away, by somebody who is not trusted and
      while the bot is operator. */
  lemma {:induction false} ResetsPermanent(st: Setting, a: Author, g: Guard, log: seq<R.Handled>)
    ensures Rounds(st, a, g, log).guard.sync <==> g.sync || EverTakesPermanent(st, a, g.iAmOp, log)
    decreases |log|
  {
    hide OpAfter, OpStep, Round, EverTakesPermanent;
    if log == [] {
      NoneTaken(st, a, g.iAmOp);
    } else {
      ResetsPermanent(st, a, g, log[..|log| - 1]);
      OneMoreTaken(st, a, g.iAmOp, log);
      RoundIs(st, a, g, log);
      SyncIs(st, a, Rounds(st, a, g, log[..|log| - 1]).guard, log[|log| - 1]);
      assert log[..|log|] == log;
    }
  }

  lemma NoneTaken(st: Setting, a: Author, was: bool)
    ensures !EverTakesPermanent(st, a, was, [])
  {
  }

  /** One strike for every four deops, by somebody whom the bot may punish. */
  lemma {:induction false} FourDeops(st: Setting, a: Author, d: nat)
    ensures Strikes(st, a, d + 1) > Strikes(st, a, d) <==> Punishable(st, a) && (d + 1) % 4 == 0
  {
  }
}
