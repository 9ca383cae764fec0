/** How long the rate limiter holds commands back: what each costs, and how many calls that takes. */
module Holding {
  import opened Chars
  import opened Options
  import opened Scheduler
  import opened Pacing

  /** Channel modes, and what else keeps a channel in order, but for kicks. */
  predicate MayPass(t: Timed) {
    (t.prio == PRIO_CHANNEL_HANDLING || t.prio == PRIO_CHANNEL_PROTECTION) && t.kind != Kick
  }

  // ---------------------------------------------------------------- the barrier falls

  /** A call in which nothing is queued takes one off the barrier, if time has passed since the last action. */
  lemma {:induction false} IdleCall(pace: Pace, m: Moment)
    requires pace.ts <= m.now
    ensures Process([], pace, m).pace
      == if m.connected && m.registered && !m.netjoining && pace.ts < m.now && pace.barrier > 0
         then Pace(pace.ts, pace.barrier - 1) else pace
  {
  }

  /** The pace after a run of calls. */
  function PaceAfter(calls: seq<Call>, pace: Pace): Pace
    requires Clocked(calls, pace.ts)
  {
    if calls == [] then pace
    else
      var r := Process(calls[0].q, pace, calls[0].m);
      ClockedEarlier(calls[1..], calls[0].m.now, r.pace.ts);
      PaceAfter(calls[1..], r.pace)
  }

  /** Calls that find nothing to do after the last action. */
  predicate Idle(calls: seq<Call>, ts: int) {
    forall k :: 0 <= k < |calls| ==> calls[k].q == [] && Runs(calls[k].m) && ts < calls[k].m.now
  }

  /** So many idle calls take so much off the barrier, down to nothing. */
  lemma {:induction false} IdleWorksOff(calls: seq<Call>, pace: Pace)
    requires Clocked(calls, pace.ts) && Idle(calls, pace.ts)
    ensures PaceAfter(calls, pace)
      == Pace(pace.ts, if |calls| >= pace.barrier then 0 else pace.barrier - |calls|)
  {
    if calls != [] {
      var r := Process([], pace, calls[0].m);
      IdleCall(pace, calls[0].m);
      ClockedEarlier(calls[1..], calls[0].m.now, r.pace.ts);
      assert calls[0].q == [] && Runs(calls[0].m);
      assert forall k :: 0 <= k < |calls[1..]| ==> calls[1..][k] == calls[k + 1];
      IdleWorksOff(calls[1..], r.pace);
    }
  }

  /** A channel is found by its name, letter case aside; the first one counts. */
  lemma {:induction false} FirstChannel(chans: seq<Chan>, name: string)
    ensures match Lookup(chans, Some(name))
      case None => forall i :: 0 <= i < |chans| ==> !SameText(chans[i].name, name)
      case Some(c) => exists i :: 0 <= i < |chans| && chans[i] == c && SameText(c.name, name)
                                  && forall j :: 0 <= j < i ==> !SameText(chans[j].name, name)
  {
    if chans != [] && !SameText(chans[0].name, name) {
      var rest := chans[1..];
      FirstChannel(rest, name);
      assert forall j :: 0 < j < |chans| ==> chans[j] == rest[j - 1];
      var c := Lookup(rest, Some(name));
      if c.Some? {
        var i :| 0 <= i < |rest| && rest[i] == c.value && forall j :: 0 <= j < i ==> !SameText(rest[j].name, name);
        assert chans[i + 1] == c.value;
      }
    }
  }

  // ---------------------------------------------------------------- what the barrier holds back

  lemma {:induction false} DrainHolds(q: seq<Timed>, pace: Pace, now: int, chans: seq<Chan>, wire: nat)
    requires pace.ts <= now && pace.barrier > 0
    ensures var r := Drain(q, pace, now, chans, wire);
      r.pace.barrier >= pace.barrier && forall t :: t in r.admitted ==> MayPass(t)
  {
    if q != [] {
      if q[0].at > now {
        DrainHolds(q[1..], pace, now, chans, wire);
      } else {
        var step := Attempt(q[0], pace, now, chans, wire);
        if step.Send? {
          DrainHolds(q[1..], step.pace, now, chans, wire - 1);
        }
      }
    }
  }

  /** What call `k` of a run admits. */
  function AdmittedIn(calls: seq<Call>, pace: Pace, k: nat): seq<Timed>
    requires Clocked(calls, pace.ts) && k < |calls|
  {
    var r := Process(calls[0].q, pace, calls[0].m);
    ClockedEarlier(calls[1..], calls[0].m.now, r.pace.ts);
    if k == 0 then r.admitted else AdmittedIn(calls[1..], r.pace, k - 1)
  }

  /** Once a barrier of `b` stands, the next `b - 1` calls admit only channel modes and the like, whatever is queued
      and however much time passes. */
  lemma {:induction false} HeldBack(calls: seq<Call>, pace: Pace, k: nat)
    requires Clocked(calls, pace.ts) && k < |calls| && k + 1 < pace.barrier
    ensures forall t :: t in AdmittedIn(calls, pace, k) ==>
      (t.prio == PRIO_CHANNEL_HANDLING || t.prio == PRIO_CHANNEL_PROTECTION) && t.kind != Kick
    decreases k
  {
    var m := calls[0].m;
    var r := Process(calls[0].q, pace, m);
    ClockedEarlier(calls[1..], m.now, r.pace.ts);
    if Runs(m) {
      DrainHolds(calls[0].q, Lowered(pace, m.now), m.now, m.chans, m.wire);
    }
    if k > 0 {
      HeldBack(calls[1..], r.pace, k - 1);
    }
  }

  /** They themselves pass whenever time has moved on since the last action, whatever the barrier. */
  lemma {:induction false} ModesPass(t: Timed, q: seq<Timed>, pace: Pace, m: Moment)
    requires pace.ts < m.now && m.connected && m.registered && !m.netjoining && m.wire > 0
    requires t.prio == PRIO_CHANNEL_HANDLING || t.prio == PRIO_CHANNEL_PROTECTION
    requires t.kind != Kick && t.at <= m.now
    ensures var r := Process([t] + q, pace, m); t in r.handled && r.sent != [] && r.sent[0] == Line(t)
  {
    assert ([t] + q)[1..] == q;
  }

  /** Nothing is sent, or taken off the queue, ahead of the registration or during a netjoin. */
  lemma {:induction false} OnlyOnTheNetwork(q: seq<Timed>, pace: Pace, m: Moment)
    requires pace.ts <= m.now && (!m.connected || !m.registered || m.netjoining)
    ensures var r := Process(q, pace, m); r.sent == [] && r.handled == [] && r.rest == q && r.pace == pace
  {
  }

  /** A due command alone on the queue. */
  lemma Alone(t: Timed, pace: Pace, now: int, chans: seq<Chan>, wire: nat)
    requires pace.ts <= now && t.at <= now
    ensures var r, step := Drain([t], pace, now, chans, wire), Attempt(t, pace, now, chans, wire);
      && r.rest == (if step.Stay? then [t] else []) && r.pace == step.pace
      && r.sent == if step.Send? then [Line(t)] else []
  {
    assert [t][1..] == [];
    match Attempt(t, pace, now, chans, wire)
    case Stay(_, _, _) =>
    case Drop(p) => assert Drain([], p, now, chans, wire) == Pass([], [], [], [], p, false);
    case Send(p) => assert Drain([], p, now, chans, wire - 1) == Pass([], [], [], [], p, false);
  }

  /** A kick is dropped unsent exactly when its channel is there and was unlocked in the meantime. */
  lemma {:induction false} DroppedKick(t: Timed, pace: Pace, m: Moment)
    requires pace.ts < m.now && m.connected && m.registered && !m.netjoining && m.wire > 0 && pace.barrier <= 1
    requires t.kind == Kick && t.at <= m.now && PRIO_NORMAL <= t.prio <= PRIO_CHANNEL_PROTECTION
    ensures var r, c := Process([t], pace, m), Lookup(m.chans, t.channel);
      match c
      case None => r.rest == [t] && r.sent == []
      case Some(c) => r.rest == [] && r.sent == if c.unlocked then [] else [Line(t)]
  {
    Alone(t, Lowered(pace, m.now), m.now, m.chans, m.wire);
  }

  // ---------------------------------------------------------------- how long

  /** A command that may not pass, alone on the queue, leaves in the call that finds the barrier worked off, and in none
      before: the `b`-th after the last action, or the first. */
  lemma {:induction false} LeavesOnCall(ms: seq<Moment>, u: Timed, pace: Pace, chans: seq<Chan>, wire: nat)
    requires Steady(ms, pace.ts, chans, wire) && wire >= 1 && Present(u, chans) && (ms != [] ==> u.at <= ms[0].now)
    requires !MayPass(u)
    ensures Left(ms, [u], pace, chans, wire) == if |ms| >= pace.barrier && ms != [] then [] else [u]
    decreases |ms|
  {
    if ms != [] {
      var r := Process([u], pace, ms[0]);
      SteadyEarlier(ms[1..], ms[0].now, r.pace.ts, chans, wire);
      OneCall(u, pace, ms[0]);
      if pace.barrier <= 1 {
        NothingLeft(ms[1..], r.pace, chans, wire);
      } else {
        LeavesOnCall(ms[1..], u, r.pace, chans, wire);
      }
    }
  }

  lemma OneCall(u: Timed, pace: Pace, m: Moment)
    requires Runs(m) && pace.ts < m.now && m.wire >= 1 && Present(u, m.chans) && u.at <= m.now && !MayPass(u)
    ensures var r := Process([u], pace, m);
      if pace.barrier <= 1 then r.rest == [] else r.rest == [u] && r.pace == Pace(pace.ts, pace.barrier - 1)
  {
    Alone(u, Lowered(pace, m.now), m.now, m.chans, m.wire);
  }

  /** What a command costs that is let through `delta` seconds after the last one, `n` being the full fifties of
      characters in it: the barrier it leaves behind, in calls. */
  lemma {:induction false} Prices(t: Timed, pace: Pace, now: int, chans: seq<Chan>, n: nat)
    requires pace.ts <= now && pace.barrier == 0 && 50 * n <= |t.command| < 50 * n + 50 && Present(t, chans)
    ensures var b := Admit(t, pace, now, chans).pace.barrier; var wide := |t.command| >= 50 * n + 25;
      && (t.prio == PRIO_WALL ==> b == 5 + Lookup(chans, t.channel).value.nickcount / 2 + n)
      && (t.prio == PRIO_FLOOD ==> b == (if t.kind == UserHost then 2 else 3) + n)
      && (t.prio == PRIO_CTCP ==> b == (if now == pace.ts then 4 else if now == pace.ts + 1 then 3 else 2) + n)
      && (t.prio == PRIO_NOTICE || t.prio == PRIO_PRIVMSG ==> b == 1 + n)
      && (t.prio == PRIO_ADVERT ==> b == 2 + 2 * n + if wide then 1 else 0)
      && (t.prio == PRIO_NORMAL || t.prio == PRIO_CHANNEL_HANDLING || t.prio == PRIO_CHANNEL_PROTECTION ==>
            b == (if t.kind == Kick then 2 else 1) + n)
  {
    assert |t.command| / 50 == n && |t.command| / 25 == 2 * n + if |t.command| >= 50 * n + 25 then 1 else 0;
    var delta := now - pace.ts;
    assert delta > 1 ==> 2 / (delta + 1) == 0;
  }
}
