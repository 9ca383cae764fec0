/** The queue of outgoing commands and its rate limiter: `timed_cmp` of ds.c,
    `processactions` and `processtimeds` of network.c. */
module Scheduler {
  import opened Chars
  import opened Options
  import opened SortedQueue

  datatype Kind = Normal | Kick | UserHost

  const PRIO_WALL := 1
  const PRIO_FLOOD := 2
  const PRIO_CTCP := 3
  const PRIO_NOTICE := 4
  const PRIO_PRIVMSG := 5
  const PRIO_ADVERT := 6
  const PRIO_NORMAL := 7
  const PRIO_CHANNEL_HANDLING := 8
  const PRIO_CHANNEL_PROTECTION := 9

  const WRITE_BUFFER_LENGTH := 512

  datatype Timed = Timed(at: int, kind: Kind, prio: int, channel: Option<string>, command: string)

  /** What the scheduler looks at in a channel. */
  datatype Chan = Chan(name: string, nickcount: nat, unlocked: bool)

  /** `last_action`: the time of the last command and the barrier still to be worked off. */
  datatype Pace = Pace(ts: int, barrier: nat)

  // ---------------------------------------------------------------- order

  /** Priority first, then time. */
  function TimedCmp(a: Timed, b: Timed): int {
    if a.prio == b.prio then
      if a.at == b.at then 0 else if a.at > b.at then -1 else 1
    else if a.prio > b.prio then 1
    else -1
  }

  lemma {:induction false} TimedCmpIsOrder()
    ensures IsOrder(TimedCmp)
  {
  }

  // ---------------------------------------------------------------- rate limiter

  /** `getchptr`: the first channel of that name. */
  function Lookup(chans: seq<Chan>, name: Option<string>): Option<Chan> {
    if name.None? || chans == [] then None
    else if SameText(chans[0].name, name.value) then Some(chans[0])
    else Lookup(chans[1..], name)
  }

  predicate IsUrgent(t: Timed) {
    (t.prio == PRIO_CHANNEL_HANDLING || t.prio == PRIO_CHANNEL_PROTECTION) && t.kind != Kick
  }

  /** What a command adds to the barrier; `delta` is the time since the last one. */
  function Charge(t: Timed, delta: nat, chans: seq<Chan>): nat {
    var len := |t.command|;
    if t.prio == PRIO_WALL then
      match Lookup(chans, t.channel)
      case None => 0
      case Some(c) => 5 + c.nickcount / 2 + len / 50
    else if t.prio == PRIO_FLOOD then (if t.kind == UserHost then 2 else 3) + len / 50
    else if t.prio == PRIO_CTCP then (if delta != 0 then 2 / (delta + 1) else 2) + 2 + len / 50
    else if t.prio == PRIO_NOTICE || t.prio == PRIO_PRIVMSG then 1 + len / 50
    else if t.prio == PRIO_ADVERT then 2 + len / 25
    else if PRIO_NORMAL <= t.prio <= PRIO_CHANNEL_PROTECTION then (if t.kind == Kick then 2 else 1) + len / 50
    else 0
  }

  datatype Verdict = Verdict(ok: bool, pace: Pace)

  /** `processactions`: may `t` go out now, and what is the pace afterwards? */
  function Admit(t: Timed, pace: Pace, now: int, chans: seq<Chan>): (v: Verdict)
    requires pace.ts <= now
    ensures v.pace.ts <= now
  {
    var delta := now - pace.ts;
    if IsUrgent(t) && (delta != 0 || pace.barrier < 5) then
      Verdict(true, Pace(now, pace.barrier + Charge(t, delta, chans)))
    else if pace.barrier > 0 then
      Verdict(false, pace)
    else if t.prio == PRIO_WALL && Lookup(chans, t.channel).None? then
      Verdict(false, Pace(now, pace.barrier))
    else
      Verdict(true, Pace(now, pace.barrier + Charge(t, delta, chans)))
  }

  // ---------------------------------------------------------------- one pass over the queue

  /** The outcome of a pass: what was let through and taken off the queue, what was written, what is left, and
      whether the pass ended because a write failed. `admitted` may hold one command more than `handled`. */
  datatype Pass = Pass(admitted: seq<Timed>, handled: seq<Timed>, sent: seq<string>, rest: seq<Timed>, pace: Pace,
                       failed: bool)

  function Line(t: Timed): string {
    Truncated(t.command + "\n", WRITE_BUFFER_LENGTH)
  }

  /** A kick is not sent any more on a channel that was unlocked in the meantime. */
  predicate Silent(t: Timed, chans: seq<Chan>) {
    t.kind == Kick && Lookup(chans, t.channel).Some? && Lookup(chans, t.channel).value.unlocked
  }

  /** What the loop of `processtimeds` does with a due command. */
  datatype Step =
    | Stay(pace: Pace, charged: bool, failed: bool)   // it stays queued and the pass ends
    | Drop(pace: Pace)                                // it leaves the queue unsent
    | Send(pace: Pace)                                // it is written and leaves the queue

  /** After `wire` lines a write fails. */
  function Attempt(t: Timed, pace: Pace, now: int, chans: seq<Chan>, wire: nat): (step: Step)
    requires pace.ts <= now
    ensures step.pace.ts <= now
    ensures step.Send? ==> wire > 0
  {
    var v := Admit(t, pace, now, chans);
    if !v.ok then Stay(v.pace, false, false)
    else if t.kind == Kick && Lookup(chans, t.channel).None? then Stay(v.pace, true, false)
    else if Silent(t, chans) then Drop(v.pace)
    else if wire == 0 then Stay(v.pace, true, true)
    else Send(v.pace)
  }

  /** The loop of `processtimeds`. */
  function Drain(q: seq<Timed>, pace: Pace, now: int, chans: seq<Chan>, wire: nat): (r: Pass)
    requires pace.ts <= now
    ensures r.pace.ts <= now
  {
    if q == [] then Pass([], [], [], [], pace, false)
    else if q[0].at > now then
      var r := Drain(q[1..], pace, now, chans, wire);
      r.(rest := [q[0]] + r.rest)
    else
      match Attempt(q[0], pace, now, chans, wire)
      case Stay(p, charged, failed) => Pass(if charged then [q[0]] else [], [], [], q, p, failed)
      case Drop(p) =>
        var r := Drain(q[1..], p, now, chans, wire);
        r.(admitted := [q[0]] + r.admitted, handled := [q[0]] + r.handled)
      case Send(p) =>
        var r := Drain(q[1..], p, now, chans, wire - 1);
        r.(admitted := [q[0]] + r.admitted, handled := [q[0]] + r.handled, sent := [Line(q[0])] + r.sent)
  }

  /** What `processtimeds` finds when it is called. */
  datatype Moment = Moment(now: int, connected: bool, registered: bool, netjoining: bool, chans: seq<Chan>, wire: nat)

  predicate Runs(m: Moment) {
    m.connected && m.registered && !m.netjoining
  }

  function Lowered(pace: Pace, now: int): Pace {
    if pace.ts < now && pace.barrier > 0 then pace.(barrier := pace.barrier - 1) else pace
  }

  /** `processtimeds` */
  function Process(q: seq<Timed>, pace: Pace, m: Moment): (r: Pass)
    requires pace.ts <= m.now
    ensures r.pace.ts <= m.now
  {
    if Runs(m) then Drain(q, Lowered(pace, m.now), m.now, m.chans, m.wire)
    else Pass([], [], [], q, pace, false)
  }

  /** How far a pass has come: `i` commands of what is left on the queue were not due. */
  datatype Walk = Walk(i: nat, sent: seq<string>, pace: Pace, wire: nat)

  ghost predicate OnWay(goal: Pass, s: seq<Timed>, w: Walk, m: Moment) {
    && w.i <= |s| && w.pace.ts <= m.now
    && var r := Drain(s[w.i..], w.pace, m.now, m.chans, w.wire);
      && goal.sent == w.sent + r.sent && goal.rest == s[..w.i] + r.rest
      && goal.pace == r.pace && goal.failed == r.failed
  }

  lemma NotDue(goal: Pass, s: seq<Timed>, w: Walk, m: Moment)
    requires OnWay(goal, s, w, m) && w.i < |s| && s[w.i].at > m.now
    ensures OnWay(goal, s, w.(i := w.i + 1), m)
  {
    assert s[w.i..][1..] == s[w.i + 1..];
    assert s[..w.i + 1] == s[..w.i] + [s[w.i]];
  }

  lemma Seen(goal: Pass, s: seq<Timed>, w: Walk, m: Moment)
    requires OnWay(goal, s, w, m) && w.i < |s| && s[w.i].at <= m.now
    ensures match Attempt(s[w.i], w.pace, m.now, m.chans, w.wire)
      case Stay(p, _, failed) => goal.sent == w.sent && goal.rest == s && goal.pace == p && goal.failed == failed
      case Drop(p) => OnWay(goal, Removed(s, w.i), w.(pace := p), m)
      case Send(p) => OnWay(goal, Removed(s, w.i), Walk(w.i, w.sent + [Line(s[w.i])], p, w.wire - 1), m)
  {
    assert s == s[..w.i] + s[w.i..];
    assert s[w.i..][1..] == Removed(s, w.i)[w.i..];
    assert Removed(s, w.i)[..w.i] == s[..w.i];
  }

  lemma AllSeen(goal: Pass, s: seq<Timed>, w: Walk, m: Moment)
    requires OnWay(goal, s, w, m) && w.i == |s|
    ensures goal.sent == w.sent && goal.rest == s && goal.pace == w.pace && !goal.failed
  {
  }

  // ---------------------------------------------------------------- the heap

  class Bot {
    const timeds: Queue<Timed>
    var ts: int
    var barrier: nat

    ghost predicate Valid()
      reads this, timeds, timeds.repr
    {
      timeds.Valid() && timeds.cmp == TimedCmp
    }

    constructor ()
      ensures Valid() && fresh(timeds) && timeds.nodes == [] && ts == 0 && barrier == 0
    {
      timeds := new Queue<Timed>(TimedCmp);
      ts, barrier := 0, 0;
    }

    ghost function ThePace(): Pace
      reads this
    {
      Pace(ts, barrier)
    }

    method ProcessActions(t: Timed, now: int, chans: seq<Chan>) returns (ok: bool)
      requires ts <= now
      modifies this`ts, this`barrier
      ensures Verdict(ok, ThePace()) == Admit(t, old(ThePace()), now, chans)
    {
      var delta := now - ts;
      if (t.prio == PRIO_CHANNEL_HANDLING || t.prio == PRIO_CHANNEL_PROTECTION) && t.kind != Kick {
        if delta != 0 || barrier < 5 {
          ts := now;
          barrier := barrier + 1 + |t.command| / 50;
          return true;
        }
      }
      if barrier != 0 {
        return false;
      }
      ts := now;
      if t.prio == PRIO_WALL {
        var c := Lookup(chans, t.channel);
        if c.None? {
          return false;
        }
        barrier := barrier + 5 + c.value.nickcount / 2 + |t.command| / 50;
      } else if t.prio == PRIO_FLOOD {
        if t.kind == UserHost {
          barrier := barrier + 2 + |t.command| / 50;
        } else {
          barrier := barrier + 3 + |t.command| / 50;
        }
      } else if t.prio == PRIO_CTCP {
        var weight := if delta != 0 then 2 / (delta + 1) else 2;
        barrier := barrier + weight + 2 + |t.command| / 50;
      } else if t.prio == PRIO_NOTICE || t.prio == PRIO_PRIVMSG {
        barrier := barrier + 1 + |t.command| / 50;
      } else if t.prio == PRIO_ADVERT {
        barrier := barrier + 2 + |t.command| / 25;
      } else if PRIO_NORMAL <= t.prio <= PRIO_CHANNEL_PROTECTION {
        if t.kind == Kick {
          barrier := barrier + 2 + |t.command| / 50;
        } else {
          barrier := barrier + 1 + |t.command| / 50;
        }
      }
      return true;
    }

    /** The body of the loop for a due command, up to its removal from the queue. */
    method TryOne(t: Timed, m: Moment, wire: nat) returns (step: Step)
      requires ts <= m.now
      modifies this`ts, this`barrier
      ensures step == Attempt(t, old(ThePace()), m.now, m.chans, wire) && step.pace == ThePace()
    {
      var ok := ProcessActions(t, m.now, m.chans);
      if !ok {
        return Stay(Pace(ts, barrier), false, false);
      }
      var gotTimed := false;
      if t.kind == Kick {
        var c := Lookup(m.chans, t.channel);
        if c.None? {
          return Stay(Pace(ts, barrier), true, false);
        }
        gotTimed := !c.value.unlocked;
      } else {
        gotTimed := true;
      }
      if !gotTimed {
        return Drop(Pace(ts, barrier));
      }
      return if wire == 0 then Stay(Pace(ts, barrier), true, true) else Send(Pace(ts, barrier));
    }

    /** The body of the loop for a due command: `t2` is where the loop goes on. */
    method HandleDue(t1: Node<Timed>, ghost i: nat, m: Moment, wire: nat) returns (step: Step, t2: Node?<Timed>)
      requires Valid() && ts <= m.now && i < |timeds.nodes| && t1 == timeds.nodes[i]
      modifies this`ts, this`barrier, timeds, timeds.repr
      ensures Valid() && timeds.repr == old(timeds.repr)
      ensures step == Attempt(old(timeds.Contents())[i], old(ThePace()), m.now, m.chans, wire) && step.pace == ThePace()
      ensures step.Stay? ==> timeds.Contents() == old(timeds.Contents())
      ensures !step.Stay? ==> timeds.Contents() == Removed(old(timeds.Contents()), i) && t2 == At(timeds.nodes, i)
    {
      timeds.Stands(i);
      t2 := t1.next;
      hide *;
      step := TryOne(t1.val, m, wire);
      if !step.Stay? {
        timeds.Delete(t1, i);
      }
    }

    /** A turn of the loop for a due command: the pass ends here, or goes on at `t2`. */
    method PassDue(t1: Node<Timed>, ghost i: nat, m: Moment, sent: seq<string>, wire: nat, ghost goal: Pass)
      returns (ends: bool, failed: bool, t2: Node?<Timed>, more: seq<string>, left: nat)
      requires Valid() && ts <= m.now && i < |timeds.nodes| && t1 == timeds.nodes[i] && t1.val.at <= m.now
      requires OnWay(goal, timeds.Contents(), Walk(i, sent, ThePace(), wire), m)
      modifies this`ts, this`barrier, timeds, timeds.repr
      ensures Valid() && ts <= m.now && timeds.repr == old(timeds.repr)
      ensures ends ==>
        goal.sent == more && goal.failed == failed && goal.rest == timeds.Contents() && goal.pace == ThePace()
      ensures !ends ==>
        && i <= |timeds.nodes| && |timeds.nodes| < |old(timeds.nodes)| && t2 == At(timeds.nodes, i)
        && OnWay(goal, timeds.Contents(), Walk(i, more, ThePace(), left), m)
    {
      timeds.Stands(i);
      Seen(goal, timeds.Contents(), Walk(i, sent, ThePace(), wire), m);
      more, left := sent, wire;
      var line := Line(t1.val);
      var step;
      SizesAgree();
      hide OnWay, Drain, Attempt, Line, Queue.Valid, Queue.Contents;
      step, t2 := HandleDue(t1, i, m, wire);
      SizesAgree();
      ends, failed := step.Stay?, step.Stay? && step.failed;
      if step.Send? {
        more, left := sent + [line], wire - 1;
      }
    }

    lemma SizesAgree()
      requires Valid()
      ensures |timeds.Contents()| == |timeds.nodes|
    {
    }

    /** The loop of `processtimeds`. */
    method DrainQueue(m: Moment) returns (sent: seq<string>, failed: bool)
      requires Valid() && ts <= m.now
      modifies this`ts, this`barrier, timeds, timeds.repr
      ensures Valid() && timeds.repr == old(timeds.repr)
      ensures var r := Drain(old(timeds.Contents()), old(ThePace()), m.now, m.chans, m.wire);
        sent == r.sent && failed == r.failed && timeds.Contents() == r.rest && ThePace() == r.pace
    {
      sent, failed := [], false;
      ghost var goal := Drain(timeds.Contents(), ThePace(), m.now, m.chans, m.wire);
      var t1, wire := timeds.first, m.wire;
      ghost var i: nat := 0;
      ghost var s := timeds.Contents();
      assert s[0..] == s && s[..0] + goal.rest == goal.rest;
      timeds.Head();
      hide *;
      while t1 != null
        invariant Valid() && ts <= m.now && timeds.repr == old(timeds.repr)
        invariant i <= |timeds.nodes| && t1 == At(timeds.nodes, i)
        invariant OnWay(goal, timeds.Contents(), Walk(i, sent, ThePace(), wire), m)
        decreases |timeds.nodes| - i
      {
        timeds.Stands(i);
        if t1.val.at > m.now {
          NotDue(goal, timeds.Contents(), Walk(i, sent, ThePace(), wire), m);
          t1, i := t1.next, i + 1;
        } else {
          var ends;
          ends, failed, t1, sent, wire := PassDue(t1, i, m, sent, wire, goal);
          if ends {
            return;
          }
        }
      }
      SizesAgree();
      AllSeen(goal, timeds.Contents(), Walk(i, sent, ThePace(), wire), m);
      failed := false;
    }

    method ProcessTimeds(m: Moment) returns (sent: seq<string>, failed: bool)
      requires Valid() && ts <= m.now
      modifies this`ts, this`barrier, timeds, timeds.repr
      ensures Valid() && timeds.repr == old(timeds.repr)
      ensures var r := Process(old(timeds.Contents()), old(ThePace()), m);
        sent == r.sent && failed == r.failed && timeds.Contents() == r.rest && ThePace() == r.pace
    {
      if !m.connected || !m.registered || m.netjoining {
        return [], false;
      }
      if ts < m.now && barrier > 0 {
        barrier := barrier - 1;
      }
      sent, failed := DrainQueue(m);
    }
  }
}
