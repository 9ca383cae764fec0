/** What the rate limiter guarantees over whole runs, whatever the queue holds. */
module Pacing {
  import opened Options
  import opened Scheduler

  // ---------------------------------------------------------------- rate safety

  predicate KnownPrios(q: seq<Timed>) {
    forall i :: 0 <= i < |q| ==> PRIO_WALL <= q[i].prio <= PRIO_CHANNEL_PROTECTION
  }

  /** How many commands can still be admitted at clock value `c`. */
  function Room(pace: Pace, c: int): nat {
    if pace.ts < c then 5
    else if pace.barrier >= 5 then 0
    else 5 - pace.barrier
  }

  lemma AdmitTakesRoom(t: Timed, pace: Pace, now: int, chans: seq<Chan>)
    requires pace.ts <= now && PRIO_WALL <= t.prio <= PRIO_CHANNEL_PROTECTION
    ensures var v := Admit(t, pace, now, chans);
      Room(v.pace, now) + (if v.ok then 1 else 0) <= Room(pace, now)
  {
  }

  lemma {:induction false} DrainTakesRoom(q: seq<Timed>, pace: Pace, now: int, chans: seq<Chan>, wire: nat)
    requires pace.ts <= now && KnownPrios(q)
    ensures var r := Drain(q, pace, now, chans, wire); |r.admitted| + Room(r.pace, now) <= Room(pace, now)
  {
    if q != [] {
      if q[0].at > now {
        DrainTakesRoom(q[1..], pace, now, chans, wire);
      } else {
        AdmitTakesRoom(q[0], pace, now, chans);
        match Attempt(q[0], pace, now, chans, wire)
        case Stay(_, _, _) =>
        case Drop(p) => DrainTakesRoom(q[1..], p, now, chans, wire);
        case Send(p) => DrainTakesRoom(q[1..], p, now, chans, wire - 1);
      }
    }
  }

  /** One call of `processtimeds`: the queue it finds and the moment. Between calls anything may happen to the queue. */
  datatype Call = Call(q: seq<Timed>, m: Moment)

  /** The clock never runs backwards, and starts no earlier than the last action. */
  predicate Clocked(calls: seq<Call>, ts: int) {
    calls == [] || (ts <= calls[0].m.now && Clocked(calls[1..], calls[0].m.now))
  }

  /** The commands admitted by the calls made at clock value `c`. */
  function AdmittedAt(calls: seq<Call>, pace: Pace, c: int): nat
    requires Clocked(calls, pace.ts)
  {
    if calls == [] then 0
    else
      var r := Process(calls[0].q, pace, calls[0].m);
      ClockedEarlier(calls[1..], calls[0].m.now, r.pace.ts);
      (if calls[0].m.now == c then |r.admitted| else 0) + AdmittedAt(calls[1..], r.pace, c)
  }

  lemma ClockedEarlier(calls: seq<Call>, ts: int, earlier: int)
    requires Clocked(calls, ts) && earlier <= ts
    ensures Clocked(calls, earlier)
  {
  }

  lemma {:induction false} NoneAfter(calls: seq<Call>, pace: Pace, c: int)
    requires Clocked(calls, pace.ts) && (calls != [] ==> calls[0].m.now > c)
    ensures AdmittedAt(calls, pace, c) == 0
  {
    if calls != [] {
      var r := Process(calls[0].q, pace, calls[0].m);
      ClockedEarlier(calls[1..], calls[0].m.now, r.pace.ts);
      NoneAfter(calls[1..], r.pace, c);
    }
  }

  lemma {:induction false} RunTakesRoom(calls: seq<Call>, pace: Pace, c: int)
    requires Clocked(calls, pace.ts) && forall i :: 0 <= i < |calls| ==> KnownPrios(calls[i].q)
    requires calls != [] ==> calls[0].m.now <= c ==> pace.ts <= c
    ensures AdmittedAt(calls, pace, c) <= Room(pace, c)
  {
    if calls != [] {
      var now := calls[0].m.now;
      var r := Process(calls[0].q, pace, calls[0].m);
      ClockedEarlier(calls[1..], now, r.pace.ts);
      if now > c {
        NoneAfter(calls, pace, c);
      } else {
        RunTakesRoom(calls[1..], r.pace, c);
        if Runs(calls[0].m) {
          DrainTakesRoom(calls[0].q, Lowered(pace, now), now, calls[0].m.chans, calls[0].m.wire);
        }
      }
    }
  }

  /** Rate safety: over any run, at most five commands are admitted at any one clock value. */
  lemma {:induction false} AtMostFive(calls: seq<Call>, pace: Pace, c: int)
    requires Clocked(calls, pace.ts) && forall i :: 0 <= i < |calls| ==> KnownPrios(calls[i].q)
    ensures AdmittedAt(calls, pace, c) <= 5
  {
    if pace.ts <= c {
      RunTakesRoom(calls, pace, c);
    } else {
      NoneAfter(calls, pace, c);
    }
  }

  function Copies(t: Timed, n: nat): (q: seq<Timed>)
    ensures |q| == n
  {
    if n == 0 then [] else [t] + Copies(t, n - 1)
  }

  /** Five is reached: short channel commands, all in one call. */
  lemma {:induction false} FiveReached(now: int)
    ensures var t := Timed(now, Normal, PRIO_CHANNEL_HANDLING, None, "JOIN #c");
      |Drain(Copies(t, 6), Pace(now - 1, 0), now, [], 6).admitted| == 5
  {
    var t := Timed(now, Normal, PRIO_CHANNEL_HANDLING, None, "JOIN #c");
    assert |t.command| / 50 == 0;
    assert Drain(Copies(t, 1), Pace(now, 5), now, [], 1).admitted == [];
    assert |Drain(Copies(t, 2), Pace(now, 4), now, [], 2).admitted| == 1;
    assert |Drain(Copies(t, 3), Pace(now, 3), now, [], 3).admitted| == 2;
    assert |Drain(Copies(t, 4), Pace(now, 2), now, [], 4).admitted| == 3;
    assert |Drain(Copies(t, 5), Pace(now, 1), now, [], 5).admitted| == 4;
  }

  /** Why the bound asks for known priorities: the switch has no default, so one outside the nine, which no caller
      passes, would cost nothing. */
  lemma {:induction false} UnknownPrioUnlimited(n: nat, now: int)
    ensures var t := Timed(now, Normal, PRIO_CHANNEL_PROTECTION + 1, None, "JOIN #c");
      Drain(Copies(t, n), Pace(now, 0), now, [], n).handled == Copies(t, n)
  {
    if n > 0 {
      UnknownPrioUnlimited(n - 1, now);
    }
  }

  // ---------------------------------------------------------------- the ledger of the barrier

  /** What the commands of one pass add to the barrier: after the first one no time has passed. */
  function Charges(ts: seq<Timed>, delta: nat, chans: seq<Chan>): nat {
    if ts == [] then 0 else Charge(ts[0], delta, chans) + Charges(ts[1..], 0, chans)
  }

  lemma {:induction false} DrainLedger(q: seq<Timed>, pace: Pace, now: int, chans: seq<Chan>, wire: nat)
    requires pace.ts <= now
    ensures var r := Drain(q, pace, now, chans, wire);
      r.pace.barrier == pace.barrier + Charges(r.admitted, now - pace.ts, chans)
  {
    if q != [] {
      if q[0].at > now {
        DrainLedger(q[1..], pace, now, chans, wire);
      } else {
        match Attempt(q[0], pace, now, chans, wire)
        case Stay(_, _, _) =>
        case Drop(p) => DrainLedger(q[1..], p, now, chans, wire);
        case Send(p) => DrainLedger(q[1..], p, now, chans, wire - 1);
      }
    }
  }

  /** A run's total: barrier at the end, charges paid, and times the barrier was lowered. */
  datatype Account = Account(barrier: nat, paid: nat, lowered: nat)

  function Book(calls: seq<Call>, pace: Pace): Account
    requires Clocked(calls, pace.ts)
  {
    if calls == [] then Account(pace.barrier, 0, 0)
    else
      var m, low := calls[0].m, Lowered(pace, calls[0].m.now);
      var r := Process(calls[0].q, pace, m);
      ClockedEarlier(calls[1..], m.now, r.pace.ts);
      var rest := Book(calls[1..], r.pace);
      if !Runs(m) then rest
      else Account(rest.barrier, rest.paid + Charges(r.admitted, m.now - pace.ts, m.chans),
                   rest.lowered + (pace.barrier - low.barrier))
  }

  /** The barrier accounts for every command admitted and every second waited. */
  lemma {:induction false} BookBalances(calls: seq<Call>, pace: Pace)
    requires Clocked(calls, pace.ts)
    ensures var b := Book(calls, pace); b.barrier + b.lowered == pace.barrier + b.paid
  {
    if calls != [] {
      var m := calls[0].m;
      var r := Process(calls[0].q, pace, m);
      ClockedEarlier(calls[1..], m.now, r.pace.ts);
      BookBalances(calls[1..], r.pace);
      if Runs(m) {
        DrainLedger(calls[0].q, Lowered(pace, m.now), m.now, m.chans, m.wire);
      }
    }
  }

  // ---------------------------------------------------------------- progress

  /** A kick or a wall needs its channel. */
  predicate Present(t: Timed, chans: seq<Chan>) {
    t.kind == Kick || t.prio == PRIO_WALL ==> Lookup(chans, t.channel).Some?
  }

  predicate AllPresent(q: seq<Timed>, chans: seq<Chan>) {
    forall i :: 0 <= i < |q| ==> Present(q[i], chans)
  }

  predicate AllDue(q: seq<Timed>, now: int) {
    forall i :: 0 <= i < |q| ==> q[i].at <= now
  }

  /** An upper bound for the work ahead: each queued command at its dearest, and one more for itself. */
  function Work(q: seq<Timed>, chans: seq<Chan>): nat {
    if q == [] then 0 else Charge(q[0], 0, chans) + 1 + Work(q[1..], chans)
  }

  lemma DearestAtOnce(t: Timed, delta: nat, chans: seq<Chan>)
    ensures Charge(t, delta, chans) <= Charge(t, 0, chans)
  {
    if delta > 0 {
      assert 2 / (delta + 1) <= 1;
    }
  }

  /** An attempt at a command that can be sent works off part of the command, or finds the barrier up. */
  lemma AttemptWorksOff(t: Timed, pace: Pace, now: int, chans: seq<Chan>, wire: nat)
    requires pace.ts <= now && Present(t, chans) && wire > 0
    ensures var step := Attempt(t, pace, now, chans, wire);
      if step.Stay? then step.pace.barrier <= pace.barrier && pace.barrier > 0
      else step.pace.barrier <= pace.barrier + Charge(t, 0, chans)
  {
    DearestAtOnce(t, now - pace.ts, chans);
  }

  lemma {:induction false} DrainWorksOff(q: seq<Timed>, pace: Pace, now: int, chans: seq<Chan>, wire: nat)
    requires pace.ts <= now && AllDue(q, now) && AllPresent(q, chans) && wire >= |q|
    ensures var r := Drain(q, pace, now, chans, wire);
      && r.pace.barrier + Work(r.rest, chans) + |r.handled| <= pace.barrier + Work(q, chans)
      && |r.rest| <= |q| && AllDue(r.rest, now) && AllPresent(r.rest, chans)
      && (q != [] && pace.barrier == 0 ==> r.handled != [])
  {
    hide Attempt, Charge, Present;
    if q != [] {
      AttemptWorksOff(q[0], pace, now, chans, wire);
      match Attempt(q[0], pace, now, chans, wire)
      case Stay(_, _, _) =>
      case Drop(p) => DrainWorksOff(q[1..], p, now, chans, wire);
      case Send(p) => DrainWorksOff(q[1..], p, now, chans, wire - 1);
    }
  }

  /** Every call made after the last action makes progress. */
  lemma {:induction false} ProcessWorksOff(q: seq<Timed>, pace: Pace, m: Moment)
    requires pace.ts < m.now && Runs(m) && AllDue(q, m.now) && AllPresent(q, m.chans) && m.wire >= |q|
    requires q != []
    ensures var r := Process(q, pace, m);
      r.pace.barrier + Work(r.rest, m.chans) < pace.barrier + Work(q, m.chans)
  {
    DrainWorksOff(q, Lowered(pace, m.now), m.now, m.chans, m.wire);
  }

  /** Calls on a closed queue: the bot is on the network, the clock moves on between calls, and no write fails. */
  predicate Steady(ms: seq<Moment>, ts: int, chans: seq<Chan>, wire: nat) {
    ms != [] ==>
      && Runs(ms[0]) && ts < ms[0].now && ms[0].chans == chans && ms[0].wire >= wire
      && Steady(ms[1..], ms[0].now, chans, wire)
  }

  function Left(ms: seq<Moment>, q: seq<Timed>, pace: Pace, chans: seq<Chan>, wire: nat): seq<Timed>
    requires Steady(ms, pace.ts, chans, wire)
  {
    if ms == [] then q
    else
      var r := Process(q, pace, ms[0]);
      SteadyEarlier(ms[1..], ms[0].now, r.pace.ts, chans, wire);
      Left(ms[1..], r.rest, r.pace, chans, wire)
  }

  lemma SteadyEarlier(ms: seq<Moment>, ts: int, earlier: int, chans: seq<Chan>, wire: nat)
    requires Steady(ms, ts, chans, wire) && earlier <= ts
    ensures Steady(ms, earlier, chans, wire)
  {
  }

  lemma {:induction false} Empties(ms: seq<Moment>, q: seq<Timed>, pace: Pace, chans: seq<Chan>, wire: nat)
    requires Steady(ms, pace.ts, chans, wire) && wire >= |q|
    requires AllPresent(q, chans) && (ms != [] ==> AllDue(q, ms[0].now))
    requires |ms| >= pace.barrier + Work(q, chans)
    ensures Left(ms, q, pace, chans, wire) == []
    decreases |ms|
  {
    if ms != [] {
      var r := Process(q, pace, ms[0]);
      SteadyEarlier(ms[1..], ms[0].now, r.pace.ts, chans, wire);
      DrainWorksOff(q, Lowered(pace, ms[0].now), ms[0].now, chans, ms[0].wire);
      if q == [] {
        NothingLeft(ms[1..], r.pace, chans, wire);
      } else {
        ProcessWorksOff(q, pace, ms[0]);
        Empties(ms[1..], r.rest, r.pace, chans, wire);
      }
    }
  }

  lemma {:induction false} NothingLeft(ms: seq<Moment>, pace: Pace, chans: seq<Chan>, wire: nat)
    requires Steady(ms, pace.ts, chans, wire)
    ensures Left(ms, [], pace, chans, wire) == []
  {
    if ms != [] {
      var r := Process([], pace, ms[0]);
      SteadyEarlier(ms[1..], ms[0].now, r.pace.ts, chans, wire);
      NothingLeft(ms[1..], r.pace, chans, wire);
    }
  }

  /** A kick or wall without its channel stays queued, whatever is due. */
  lemma {:induction false} AbsentStays(q: seq<Timed>, pace: Pace, now: int, chans: seq<Chan>, wire: nat, t: Timed)
    requires pace.ts <= now && t in q && !Present(t, chans)
    ensures t in Drain(q, pace, now, chans, wire).rest
  {
    if q[0].at > now {
      if t != q[0] {
        AbsentStays(q[1..], pace, now, chans, wire, t);
      }
    } else {
      match Attempt(q[0], pace, now, chans, wire)
      case Stay(_, _, _) =>
      case Drop(p) => AbsentStays(q[1..], p, now, chans, wire, t);
      case Send(p) => AbsentStays(q[1..], p, now, chans, wire - 1, t);
    }
  }

  lemma {:induction false} AbsentForever(ms: seq<Moment>, q: seq<Timed>, pace: Pace, chans: seq<Chan>, wire: nat,
                                         t: Timed)
    requires Steady(ms, pace.ts, chans, wire) && t in q && !Present(t, chans)
    ensures t in Left(ms, q, pace, chans, wire)
    decreases |ms|
  {
    if ms != [] {
      var r := Process(q, pace, ms[0]);
      SteadyEarlier(ms[1..], ms[0].now, r.pace.ts, chans, wire);
      AbsentStays(q, Lowered(pace, ms[0].now), ms[0].now, chans, ms[0].wire, t);
      AbsentForever(ms[1..], r.rest, r.pace, chans, wire, t);
    }
  }

  /** Where the first kick or wall without its channel stands. */
  function FirstAbsent(q: seq<Timed>, chans: seq<Chan>): (k: nat)
    ensures k <= |q| && AllPresent(q[..k], chans) && (k < |q| ==> !Present(q[k], chans))
  {
    if q == [] || !Present(q[0], chans) then 0
    else
      var k := 1 + FirstAbsent(q[1..], chans);
      assert q[..k] == [q[0]] + q[1..][..k - 1];
      k
  }

  /** A queue that cannot get past its first command. */
  predicate Stuck(b: seq<Timed>, chans: seq<Chan>) {
    b != [] ==> !Present(b[0], chans)
  }

  lemma StuckStays(b: seq<Timed>, pace: Pace, now: int, chans: seq<Chan>, wire: nat)
    requires pace.ts <= now && AllDue(b, now) && Stuck(b, chans)
    ensures Drain(b, pace, now, chans, wire).rest == b
  {
  }

  lemma DueTail(q: seq<Timed>, now: int)
    requires AllDue(q, now) && q != []
    ensures q[0].at <= now && AllDue(q[1..], now)
  {
  }

  /** A pass works on what stands ahead of a stuck queue as if nothing stood behind it. */
  lemma {:induction false} DrainAhead(a: seq<Timed>, b: seq<Timed>, pace: Pace, now: int, chans: seq<Chan>, wire: nat)
    requires pace.ts <= now && AllDue(a + b, now) && Stuck(b, chans)
    ensures var r, all := Drain(a, pace, now, chans, wire), Drain(a + b, pace, now, chans, wire);
      all.rest == r.rest + b && (r.rest != [] ==> all.pace == r.pace)
    decreases a
  {
    hide Attempt, AllDue, Stuck;
    if a == [] {
      assert a + b == b;
      StuckStays(b, pace, now, chans, wire);
    } else {
      assert (a + b)[0] == a[0] && (a + b)[1..] == a[1..] + b;
      DueTail(a + b, now);
      match Attempt(a[0], pace, now, chans, wire)
      case Stay(_, _, _) =>
      case Drop(p) => DrainAhead(a[1..], b, p, now, chans, wire);
      case Send(p) => DrainAhead(a[1..], b, p, now, chans, wire - 1);
    }
  }

  lemma {:induction false} StuckForever(ms: seq<Moment>, b: seq<Timed>, pace: Pace, chans: seq<Chan>, wire: nat)
    requires Steady(ms, pace.ts, chans, wire) && Stuck(b, chans) && (ms != [] ==> AllDue(b, ms[0].now))
    ensures Left(ms, b, pace, chans, wire) == b
    decreases |ms|
  {
    if ms != [] {
      var r := Process(b, pace, ms[0]);
      SteadyEarlier(ms[1..], ms[0].now, r.pace.ts, chans, wire);
      StuckStays(b, Lowered(pace, ms[0].now), ms[0].now, chans, ms[0].wire);
      StuckForever(ms[1..], b, r.pace, chans, wire);
    }
  }

  lemma {:induction false} AheadGoes(ms: seq<Moment>, a: seq<Timed>, b: seq<Timed>, pace: Pace, chans: seq<Chan>,
                                     wire: nat)
    requires Steady(ms, pace.ts, chans, wire) && wire >= |a| && AllPresent(a, chans) && Stuck(b, chans)
    requires ms != [] ==> AllDue(a + b, ms[0].now)
    requires |ms| >= pace.barrier + Work(a, chans)
    ensures Left(ms, a + b, pace, chans, wire) == b
    decreases |ms|
  {
    if a == [] {
      assert a + b == b;
      StuckForever(ms, b, pace, chans, wire);
    } else if ms != [] {
      var m, q := ms[0], a + b;
      var r, all := Process(a, pace, m), Process(q, pace, m);
      SteadyEarlier(ms[1..], m.now, all.pace.ts, chans, wire);
      AllDueParts(a, b, m.now);
      DrainAhead(a, b, Lowered(pace, m.now), m.now, chans, m.wire);
      DrainWorksOff(a, Lowered(pace, m.now), m.now, chans, m.wire);
      ProcessWorksOff(a, pace, m);
      AllDueParts(r.rest, b, m.now);
      hide Drain, Present, Work, Charge;
      if r.rest == [] {
        assert r.rest + b == b;
        StuckForever(ms[1..], b, all.pace, chans, wire);
      } else {
        AheadGoes(ms[1..], r.rest, b, all.pace, chans, wire);
      }
    }
  }

  lemma AllDueParts(a: seq<Timed>, b: seq<Timed>, now: int)
    ensures AllDue(a + b, now) <==> AllDue(a, now) && AllDue(b, now)
  {
    if AllDue(a + b, now) {
      assert forall i :: 0 <= i < |b| ==> b[i] == (a + b)[|a| + i];
      assert forall i :: 0 <= i < |a| ==> a[i] == (a + b)[i];
    }
  }

  /** What is left, exactly: given enough calls, a closed queue of due commands is worked off up to the first kick or
      wall without its channel, and everything from there on stays. */
  lemma {:induction false} LeftExactly(ms: seq<Moment>, q: seq<Timed>, pace: Pace, chans: seq<Chan>, wire: nat)
    requires Steady(ms, pace.ts, chans, wire) && wire >= FirstAbsent(q, chans)
    requires ms != [] ==> AllDue(q, ms[0].now)
    requires |ms| >= pace.barrier + Work(q[..FirstAbsent(q, chans)], chans)
    ensures Left(ms, q, pace, chans, wire) == q[FirstAbsent(q, chans)..]
  {
    var k := FirstAbsent(q, chans);
    assert q == q[..k] + q[k..];
    AheadGoes(ms, q[..k], q[k..], pace, chans, wire);
  }

  lemma {:induction false} WorkAhead(q: seq<Timed>, k: nat, chans: seq<Chan>)
    requires k <= |q|
    ensures Work(q[..k], chans) <= Work(q, chans)
    decreases k
  {
    if k > 0 {
      assert q[..k][1..] == q[1..][..k - 1];
      WorkAhead(q[1..], k - 1, chans);
    }
  }

  /** So it empties if and only if every kick and wall on it has its channel. */
  lemma {:induction false} EmptiesExactly(ms: seq<Moment>, q: seq<Timed>, pace: Pace, chans: seq<Chan>, wire: nat)
    requires Steady(ms, pace.ts, chans, wire) && wire >= |q|
    requires ms != [] ==> AllDue(q, ms[0].now)
    requires |ms| >= pace.barrier + Work(q, chans)
    ensures Left(ms, q, pace, chans, wire) == [] <==> AllPresent(q, chans)
  {
    WorkAhead(q, FirstAbsent(q, chans), chans);
    LeftExactly(ms, q, pace, chans, wire);
  }
}
