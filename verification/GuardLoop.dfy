/** What the bot does about a mode line, followed through the turns of the main loop. */
module GuardLoop {
  import opened Chars
  import opened Options
  import opened SortedQueue
  import opened Scheduler
  import opened Batching
  import opened Flushing
  import opened Delivery
  import opened BanKick
  import opened ModeReactions
  import opened MainLoop
  import C = ChanModes
  import R = ModeReading
  import L = ModeLines
  import ModeActions

  // ---------------------------------------------------------------- what is ready leaves or stays queued

  /** A command that a turn finds on its queue leaves in the run or is still there at its end. */
  lemma LeavesOrStays(w: World, xs: seq<Input>, t: Timed)
    requires xs != [] && InputsClocked(xs, w.pace.ts) && Goes(w, xs[0]) && t in Ready(w, xs[0])
    ensures t in LoopLog(w, xs) || t in Final(w, xs).q
  {
    var turns := TurnsOf(w, xs);
    TurnReady(w, xs[0]);
    QueueAllHolds(turns[0].added, w.q);
    CommandsConserved(w, xs);
    hide Ready, LoopLog, Final, TurnsOf, Goes;
    assert t in multiset(Ready(w, xs[0]));
    assert AllAdded(turns) == turns[0].added + AllAdded(turns[1..]);
    assert t in multiset(w.q) + multiset(AllAdded(turns));
    assert t in multiset(LoopLog(w, xs)) + multiset(Final(w, xs).q);
  }

  /** A due mode that waits when a turn flushes goes into a command that leaves in the run or is still queued. */
  lemma DueModeLeaves(w: World, xs: seq<Input>, c: nat, m: Mmode) returns (b: Batch)
    requires xs != [] && InputsClocked(xs, w.pace.ts) && Goes(w, xs[0]) && Sorted(TimedCmp, w.q) && c < |w.ws|
    requires m in Arrived(w.ws, xs[0].events).value[c].modes && m.at <= xs[0].m.now
    ensures m in b.modes
    ensures ModeCommand(w.ws[c].name, b) in LoopLog(w, xs) || ModeCommand(w.ws[c].name, b) in Final(w, xs).q
  {
    var x, ws := xs[0], Arrived(w.ws, xs[0].events).value;
    var q := QueueAll(MainLoop.Commands(x.events), w.q);
    b := BatchOf(ws[c], m, x.m.now, x.limit);
    QueueAllSorted(MainLoop.Commands(x.events), w.q);
    FlushedQueues(ws, c, b, x.m.now, x.limit, q);
    assert ModeCommand(w.ws[c].name, b) in Ready(w, x);
    hide ModeCommand, Ready, LoopLog, Final, Goes;
    LeavesOrStays(w, xs, ModeCommand(w.ws[c].name, b));
  }

  // ---------------------------------------------------------------- the answers to a line

  /** The modes come in one after the other. */
  function Arrivals(c: nat, ms: seq<Mmode>): seq<Event> {
    if ms == [] then [] else [Comes(c, ms[0])] + Arrivals(c, ms[1..])
  }

  lemma {:induction false} ArrivalsNoNick(c: nat, ms: seq<Mmode>, es: seq<Event>, name: string)
    requires NoNick(es, c, name)
    ensures NoNick(Arrivals(c, ms) + es, c, name)
  {
    if ms == [] {
      assert [] + es == es;
    } else {
      ArrivalsNoNick(c, ms[1..], es, name);
      var rest := Arrivals(c, ms[1..]) + es;
      assert Arrivals(c, ms) + es == [Comes(c, ms[0])] + rest;
      hide SameText;
    }
  }

  lemma {:induction false} ArrivalsWait(ws: seq<Waiting>, c: nat, ms: seq<Mmode>, es: seq<Event>, m: Mmode)
    requires c < |ws| && m in ms && m.target.Some? && NoNick(es, c, m.target.value)
    requires Arrived(ws, Arrivals(c, ms) + es).Some?
    ensures m in Arrived(ws, Arrivals(c, ms) + es).value[c].modes
    decreases ms
  {
    var all, rest := Arrivals(c, ms) + es, Arrivals(c, ms[1..]) + es;
    assert all[0] == Comes(c, ms[0]) && all[1..] == rest;
    var next := Happened(ws, all[0]);
    assert Arrived(ws, all) == Arrived(next, rest);
    hide NoNick, Arrived;
    if m == ms[0] {
      InsertedHolds(MmodeCmp, m, ws[c].modes);
      assert next[c].modes == Inserted(MmodeCmp, m, ws[c].modes);
      ArrivalsNoNick(c, ms[1..], es, m.target.value);
      GoesOnWaiting(next, rest, c, m);
    } else {
      ArrivalsWait(next, c, ms[1..], es, m);
    }
  }

  /** Every mode that the bot sets because of a line is due at once and has a target. */
  predicate DueNow(st: Setting, ms: seq<Mmode>) {
    forall m :: m in ms ==> m.at == st.now && m.target.Some?
  }

  lemma RoundDueNow(st: Setting, a: Author, g: Guard, h: R.Handled)
    ensures DueNow(st, Round(st, a, g, h).modes)
  {
    hide SameText, MembersStep, BansStep, Whois, KickForBan, Opless;
  }

  lemma {:induction false} AllDueNow(st: Setting, a: Author, g: Guard, log: seq<R.Handled>)
    ensures DueNow(st, Rounds(st, a, g, log).modes)
    decreases |log|
  {
    if log != [] {
      var init := log[..|log| - 1];
      AllDueNow(st, a, g, init);
      RoundDueNow(st, a, Rounds(st, a, g, init).guard, log[|log| - 1]);
      hide Round;
    }
  }

  /** Whatever the bot sets because of a line, over every run that goes on from there: it leaves in a MODE command, or
      its command is still queued; unless the user it is for leaves or changes nick first. */
  lemma {:induction false} AnswersLeave(st: Setting, a: Author, g: Guard, log: seq<R.Handled>, m: Mmode, w: World,
                                        xs: seq<Input>, c: nat, es: seq<Event>)
    requires xs != [] && InputsClocked(xs, w.pace.ts) && Goes(w, xs[0]) && Sorted(TimedCmp, w.q)
    requires c < |w.ws| && st.now <= xs[0].m.now && xs[0].events == Arrivals(c, Rounds(st, a, g, log).modes) + es
    requires m in Rounds(st, a, g, log).modes && (m.target.Some? ==> NoNick(es, c, m.target.value))
    ensures exists b: Batch ::
      && m in b.modes
      && (ModeCommand(w.ws[c].name, b) in LoopLog(w, xs) || ModeCommand(w.ws[c].name, b) in Final(w, xs).q)
  {
    AllDueNow(st, a, g, log);
    hide Rounds, ModeCommand, LoopLog, Final;
    ArrivalsWait(w.ws, c, Rounds(st, a, g, log).modes, es, m);
    hide Arrived, NoNick;
    var b := DueModeLeaves(w, xs, c, m);
  }

  lemma {:induction false} AllAgainstHolds(st: Setting, was: bool, log: seq<R.Handled>, i: nat, m: Mmode)
    requires i < |log| && OpAfter(st.me, was, log[..i + 1]) && m in Against(st, log[i])
    ensures m in AllAgainst(st, was, log)
    decreases |log|
  {
    var n := |log| - 1;
    hide Against, OpAfter;
    if i < n {
      assert log[..n][..i + 1] == log[..i + 1];
      AllAgainstHolds(st, was, log[..n], i, m);
    } else {
      assert log[..i + 1] == log;
    }
  }

  /** So the mode that undoes an unwelcome change by somebody who is not trusted is among them, whenever the bot is
      operator after the change. */
  lemma {:induction false} UndoingAsked(st: Setting, a: Author, g: Guard, log: seq<R.Handled>, i: nat, m: Mmode)
    requires !a.trusted && g.deops == 0
    requires i < |log| && OpAfter(st.me, g.iAmOp, log[..i + 1]) && m in Against(st, log[i])
    ensures m in Rounds(st, a, g, log).modes
  {
    AllAgainstHolds(st, g.iAmOp, log, i, m);
    GuardsExactly(st, a, g, log, m);
    hide Rounds, AllAgainst, Against, Strikes, Since, Deops, OpAfter;
  }

  // ---------------------------------------------------------------- what an answer undoes

  function Opposite(k: C.Kind): C.Kind {
    match k
    case Op => C.Deop
    case Deop => C.Op
    case Ban => C.Unban
    case Unban => C.Ban
    case _ => C.Unknown
  }

  /** A single mode is read as a change of one letter with one target. */
  lemma SingleAsked(sign: char, letter: char, target: string)
    requires C.IsSign(sign) && (letter == 'o' || letter == 'b')
    ensures var kind := if letter == 'o' then if sign == '+' then C.Op else C.Deop
                        else if sign == '+' then C.Ban else C.Unban;
      L.Asked([sign, letter], [target]) == [R.Handled(kind, target)]
  {
    L.PairOf(sign, letter);
    assert R.ParamsBefore([C.Change(sign, letter)], 0) == 0;
  }

  /** From the answer back to the reading: the mode set against a change, read as a mode line, is the opposite change
      of the same target. */
  lemma {:induction false} AnswerOpposes(st: Setting, h: R.Handled, m: Mmode)
    requires m in Against(st, h)
    ensures m.target == Some(h.target) && L.Asked(m.command, [h.target]) == [R.Handled(Opposite(h.kind), h.target)]
  {
    SingleAsked('+', 'o', h.target);
    SingleAsked('-', 'o', h.target);
    SingleAsked('+', 'b', h.target);
    SingleAsked('-', 'b', h.target);
    hide L.Asked, SameText;
  }

  /** Once that opposite change comes back from the server, the book is as before the unwelcome one: who was made
      operator is none, who was unmade is one, what was banned is not listed, and what was unbanned is. */
  lemma {:induction false} AnswerUndoes(st: Setting, h: R.Handled, m: Mmode, ms: seq<Member>, bans: seq<string>, i: nat)
    requires m in Against(st, h) && Distinct(ms) && NoneTwice(bans) && i < |ms| && SameText(ms[i].nick, h.target)
    ensures var back := L.Asked(m.command, [h.target])[0];
      && (h.kind == C.Op ==> !MembersStep(MembersStep(ms, h), back)[i].op)
      && (h.kind == C.Deop ==> MembersStep(MembersStep(ms, h), back)[i].op)
      && (h.kind == C.Ban ==> !Listed(BansStep(BansStep(bans, h), back), h.target))
      && (h.kind == C.Unban ==> Listed(BansStep(BansStep(bans, h), back), h.target))
  {
    AnswerOpposes(st, h, m);
    var back := R.Handled(Opposite(h.kind), h.target);
    var once := MembersStep(ms, h);
    StepDistinct(ms, h);
    StepAt(ms, h, i);
    StepAt(once, back, i);
    AddedIs(bans, h.target, h.target);
    DeletedIs(bans, h.target, h.target);
    AddedIs(BansStep(bans, h), h.target, h.target);
    DeletedIs(BansStep(bans, h), h.target, h.target);
    hide L.Asked, MembersStep, BanAdded, BanDeleted, Listed, NoneTwice, Distinct, Against;
    assert SameText(h.target, h.target);
  }

  lemma StepDistinct(ms: seq<Member>, h: R.Handled)
    requires Distinct(ms)
    ensures Distinct(MembersStep(ms, h))
  {
    forall i | 0 <= i < |ms| ensures MembersStep(ms, h)[i].nick == ms[i].nick {
      StepAt(ms, h, i);
    }
    hide MembersStep;
  }

  /** Whoever is punished loses operator. */
  lemma {:induction false} PunishmentDeops(st: Setting, a: Author)
    ensures var m := Punishment(st, a);
      m.target == Some(a.nick) && m.at == st.now && L.Asked(m.command, [a.nick]) == [R.Handled(C.Deop, a.nick)]
  {
    SingleAsked('-', 'o', a.nick);
  }

  /** When a permanent ban was taken away, all of them are set again, at once. */
  lemma {:induction false} PermanentReturn(now: int, masks: seq<string>, i: nat)
    requires i < |masks|
    ensures |ModeActions.Bans(now, masks)| == |masks|
    ensures var m := ModeActions.Bans(now, masks)[i];
      m.at == now && m.target == Some(masks[i]) && L.Asked(m.command, [masks[i]]) == [R.Handled(C.Ban, masks[i])]
  {
    SingleAsked('+', 'b', masks[i]);
  }
}
