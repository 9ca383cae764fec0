/** In which order the command queue is drained. */
module Delivery {
  import opened SortedQueue
  import opened Scheduler
  import Pacing

  function DueOf(q: seq<Timed>, now: int): seq<Timed> {
    if q == [] then [] else (if q[0].at <= now then [q[0]] else []) + DueOf(q[1..], now)
  }

  /** `q` without the first `k` of its due commands. */
  function WithoutDue(q: seq<Timed>, now: int, k: nat): seq<Timed> {
    if q == [] || k == 0 then q
    else if q[0].at <= now then WithoutDue(q[1..], now, k - 1)
    else [q[0]] + WithoutDue(q[1..], now, k)
  }

  function LinesOf(ts: seq<Timed>, chans: seq<Chan>): seq<string> {
    if ts == [] then [] else (if Silent(ts[0], chans) then [] else [Line(ts[0])]) + LinesOf(ts[1..], chans)
  }

  /** A pass handles exactly a prefix of the due commands and leaves everything else where it was. */
  lemma {:induction false} DrainPrefix(q: seq<Timed>, pace: Pace, now: int, chans: seq<Chan>, wire: nat)
    requires pace.ts <= now
    ensures var r := Drain(q, pace, now, chans, wire); var k := |r.handled|;
      k <= |DueOf(q, now)| && r.handled == DueOf(q, now)[..k] && r.rest == WithoutDue(q, now, k)
  {
    hide Attempt;
    if q != [] {
      if q[0].at > now {
        DrainPrefix(q[1..], pace, now, chans, wire);
        assert DueOf(q, now) == DueOf(q[1..], now);
      } else {
        assert DueOf(q, now) == [q[0]] + DueOf(q[1..], now);
        match Attempt(q[0], pace, now, chans, wire)
        case Stay(_, _, _) =>
        case Drop(p) => DrainPrefix(q[1..], p, now, chans, wire);
        case Send(p) => DrainPrefix(q[1..], p, now, chans, wire - 1);
      }
    }
  }

  /** What is written is what was handled, in that order, except kicks overtaken by an unlock. */
  lemma {:induction false} DrainSends(q: seq<Timed>, pace: Pace, now: int, chans: seq<Chan>, wire: nat)
    requires pace.ts <= now
    ensures var r := Drain(q, pace, now, chans, wire); r.sent == LinesOf(r.handled, chans)
  {
    if q != [] {
      if q[0].at > now {
        DrainSends(q[1..], pace, now, chans, wire);
      } else {
        match Attempt(q[0], pace, now, chans, wire)
        case Stay(_, _, _) =>
        case Drop(p) => DrainSends(q[1..], p, now, chans, wire);
        case Send(p) => DrainSends(q[1..], p, now, chans, wire - 1);
      }
    }
  }

  /** The pace after the commands `done` were let through. */
  function PaceAfter(pace: Pace, done: seq<Timed>, now: int, chans: seq<Chan>): (p: Pace)
    requires pace.ts <= now
    ensures p.ts <= now
  {
    if done == [] then pace else Pace(now, pace.barrier + Pacing.Charges(done, now - pace.ts, chans))
  }

  lemma PaceFirst(pace: Pace, t: Timed, done: seq<Timed>, now: int, chans: seq<Chan>)
    requires pace.ts <= now
    ensures PaceAfter(pace, [t], now, chans) == Pace(now, pace.barrier + Charge(t, now - pace.ts, chans))
    ensures PaceAfter(pace, [t] + done, now, chans) == PaceAfter(PaceAfter(pace, [t], now, chans), done, now, chans)
  {
    assert [t][1..] == [] && ([t] + done)[1..] == done;
    assert Pacing.Charges([], 0, chans) == 0;
    assert Pacing.Charges([t], now - pace.ts, chans) == Charge(t, now - pace.ts, chans);
    assert Pacing.Charges([t] + done, now - pace.ts, chans)
        == Charge(t, now - pace.ts, chans) + Pacing.Charges(done, 0, chans);
  }

  /** The limiter refuses: the barrier is not worked off, and the command is not urgent or has had its share. */
  predicate Refused(t: Timed, p: Pace, now: int) {
    p.barrier > 0 && !(IsUrgent(t) && (now != p.ts || p.barrier < 5))
  }

  /** Why a due command ends a pass, `w` lines before a write fails: it is refused, it is a kick or a wall without a
      channel, or it is to be written and the write fails. */
  predicate Ends(t: Timed, p: Pace, now: int, chans: seq<Chan>, w: int) {
    Refused(t, p, now) || !Pacing.Present(t, chans) || (w == 0 && !Silent(t, chans))
  }

  /** Whether the due command `i` of a pass ends it, those ahead of it having been handled. */
  predicate EndsAt(due: seq<Timed>, i: nat, pace: Pace, now: int, chans: seq<Chan>, wire: nat)
    requires pace.ts <= now && i < |due|
  {
    Ends(due[i], PaceAfter(pace, due[..i], now, chans), now, chans, wire - |LinesOf(due[..i], chans)|)
  }

  lemma LinesFirst(t: Timed, done: seq<Timed>, chans: seq<Chan>)
    ensures |LinesOf([t] + done, chans)| == (if Silent(t, chans) then 0 else 1) + |LinesOf(done, chans)|
  {
    assert ([t] + done)[1..] == done;
  }

  /** After a command that does not end the pass, the rest of the due commands is a pass of its own. */
  lemma EndsShift(due: seq<Timed>, i: nat, pace: Pace, p: Pace, now: int, chans: seq<Chan>, wire: nat, left: nat)
    requires pace.ts <= now && 0 < i < |due| && p == PaceAfter(pace, due[..1], now, chans)
    requires left == wire - |LinesOf(due[..1], chans)|
    ensures EndsAt(due, i, pace, now, chans, wire) <==> EndsAt(due[1..], i - 1, p, now, chans, left)
  {
    var done := due[1..][..i - 1];
    assert due[..i] == [due[0]] + done && due[..1] == [due[0]] && due[1..][i - 1] == due[i];
    PaceFirst(pace, due[0], done, now, chans);
    LinesFirst(due[0], done, chans);
    LinesFirst(due[0], [], chans);
    assert [due[0]] + [] == [due[0]];
    hide PaceAfter, LinesOf, Ends;
  }

  lemma AttemptEnds(t: Timed, pace: Pace, now: int, chans: seq<Chan>, wire: nat)
    requires pace.ts <= now
    ensures var step := Attempt(t, pace, now, chans, wire);
      && (step.Stay? <==> Ends(t, pace, now, chans, wire))
      && (step.Stay? ==> step.failed == (!Refused(t, pace, now) && Pacing.Present(t, chans)))
      && (!step.Stay? ==> step.pace == PaceAfter(pace, [t], now, chans) && (step.Send? <==> !Silent(t, chans)))
  {
    PaceFirst(pace, t, [], now, chans);
  }

  /** A pass over the commands `due` that handled `done`, wrote `lines` lines and left the pace at `last`: it went on
      to the first command that ends it, and no further, and a failed write is what ended it only when the command
      was neither refused nor without a channel. */
  predicate StopsAt(due: seq<Timed>, done: seq<Timed>, lines: nat, last: Pace, failed: bool,
                    pace: Pace, now: int, chans: seq<Chan>, wire: nat)
    requires pace.ts <= now
  {
    var k, p := |done|, PaceAfter(pace, done, now, chans);
    && k <= |due| && done == due[..k] && lines == |LinesOf(done, chans)| <= wire
    && (forall i :: 0 <= i < k ==> !EndsAt(due, i, pace, now, chans, wire))
    && (if k < |due| then
          && EndsAt(due, k, pace, now, chans, wire)
          && last == Attempt(due[k], p, now, chans, wire - lines).pace
          && failed == (!Refused(due[k], p, now) && Pacing.Present(due[k], chans))
        else last == p && !failed)
  }

  /** Every pass stops there. */
  lemma {:induction false} DrainStops(q: seq<Timed>, pace: Pace, now: int, chans: seq<Chan>, wire: nat)
    requires pace.ts <= now
    ensures var r := Drain(q, pace, now, chans, wire);
      StopsAt(DueOf(q, now), r.handled, |r.sent|, r.pace, r.failed, pace, now, chans, wire)
  {
    hide PaceAfter, StopsAt, Ends, Refused, Attempt, Silent, Pacing.Present;
    if q == [] {
      StopsAtOnce([], pace, now, chans, wire);
    } else if q[0].at > now {
      DrainStops(q[1..], pace, now, chans, wire);
      assert DueOf(q, now) == DueOf(q[1..], now);
    } else {
      var due, rest := DueOf(q, now), DueOf(q[1..], now);
      assert due == [q[0]] + rest && due[0] == q[0];
      AttemptEnds(q[0], pace, now, chans, wire);
      var step := Attempt(q[0], pace, now, chans, wire);
      hide DueOf;
      if step.Stay? {
        StopsAtOnce(due, pace, now, chans, wire);
      } else {
        var left := if step.Send? then wire - 1 else wire;
        DrainStops(q[1..], step.pace, now, chans, left);
        var r := Drain(q[1..], step.pace, now, chans, left);
        StopsLater(q[0], rest, r.handled, |r.sent|, r.pace, r.failed, pace, now, chans, wire);
      }
    }
  }

  lemma StopsAtOnce(due: seq<Timed>, pace: Pace, now: int, chans: seq<Chan>, wire: nat)
    requires pace.ts <= now && (due != [] ==> Ends(due[0], pace, now, chans, wire))
    ensures if due == [] then StopsAt(due, [], 0, pace, false, pace, now, chans, wire)
            else StopsAt(due, [], 0, Attempt(due[0], pace, now, chans, wire).pace,
                         !Refused(due[0], pace, now) && Pacing.Present(due[0], chans), pace, now, chans, wire)
  {
    assert due[..0] == [];
  }

  /** One handled command more ahead of a pass. */
  lemma StopsLater(t: Timed, rest: seq<Timed>, done: seq<Timed>, lines: nat, last: Pace, failed: bool,
                   pace: Pace, now: int, chans: seq<Chan>, wire: nat)
    requires pace.ts <= now && !Ends(t, pace, now, chans, wire)
    requires var p, left := PaceAfter(pace, [t], now, chans), wire - if Silent(t, chans) then 0 else 1;
      left >= 0 && StopsAt(rest, done, lines, last, failed, p, now, chans, left)
    ensures StopsAt([t] + rest, [t] + done, lines + if Silent(t, chans) then 0 else 1, last, failed,
                    pace, now, chans, wire)
  {
    var due, p := [t] + rest, PaceAfter(pace, [t], now, chans);
    var left := wire - if Silent(t, chans) then 0 else 1;
    assert due[1..] == rest && due[..1] == [t] && due[..0] == [];
    LinesFirst(t, [], chans);
    assert [t] + [] == [t];
    LinesFirst(t, done, chans);
    PaceFirst(pace, t, done, now, chans);
    assert due[..|done| + 1] == [t] + rest[..|done|];
    hide PaceAfter, LinesOf, Ends, Refused;
    forall i | 0 < i < |due|
      ensures EndsAt(due, i, pace, now, chans, wire) <==> EndsAt(rest, i - 1, p, now, chans, left)
    {
      EndsShift(due, i, pace, p, now, chans, wire, left);
    }
    assert !EndsAt(due, 0, pace, now, chans, wire) by {
      NothingDone(pace, now, chans);
    }
    hide EndsAt;
  }

  lemma NothingDone(pace: Pace, now: int, chans: seq<Chan>)
    requires pace.ts <= now
    ensures PaceAfter(pace, [], now, chans) == pace && LinesOf([], chans) == []
  {
  }

  // ---------------------------------------------------------------- runs

  /** One turn of the main loop: the commands queued in it, and the moment the queue is drained. */
  datatype Turn = Turn(added: seq<Timed>, m: Moment)

  function QueueAll(xs: seq<Timed>, q: seq<Timed>): seq<Timed> {
    if xs == [] then q else QueueAll(xs[1..], Inserted(TimedCmp, xs[0], q))
  }

  lemma {:induction false} QueueAllConcat(a: seq<Timed>, b: seq<Timed>, q: seq<Timed>)
    ensures QueueAll(a + b, q) == QueueAll(b, QueueAll(a, q))
    decreases a
  {
    if a == [] {
      assert a + b == b;
    } else {
      assert (a + b)[1..] == a[1..] + b;
      QueueAllConcat(a[1..], b, Inserted(TimedCmp, a[0], q));
    }
  }

  predicate TurnsClocked(turns: seq<Turn>, ts: int) {
    turns == [] || (ts <= turns[0].m.now && TurnsClocked(turns[1..], turns[0].m.now))
  }

  lemma TurnsEarlier(turns: seq<Turn>, ts: int, earlier: int)
    requires TurnsClocked(turns, ts) && earlier <= ts
    ensures TurnsClocked(turns, earlier)
  {
  }

  /** Everything that leaves the queue, in order. */
  function Log(turns: seq<Turn>, q: seq<Timed>, pace: Pace): seq<Timed>
    requires TurnsClocked(turns, pace.ts)
  {
    if turns == [] then []
    else
      var r := Process(QueueAll(turns[0].added, q), pace, turns[0].m);
      TurnsEarlier(turns[1..], turns[0].m.now, r.pace.ts);
      r.handled + Log(turns[1..], r.rest, r.pace)
  }

  predicate Behind(k: Timed, m: Timed) {
    k.prio == m.prio && k.at > m.at
  }

  /** Whatever `log` holds behind `m` in the order of the queue comes after `m`. */
  ghost predicate After(log: seq<Timed>, m: Timed) {
    forall j :: 0 <= j < |log| && Behind(log[j], m) ==> m in log[..j]
  }

  lemma {:induction false} QueueAllKeeps(xs: seq<Timed>, q: seq<Timed>, m: Timed)
    requires Sorted(TimedCmp, q) && m in q
    ensures Sorted(TimedCmp, QueueAll(xs, q)) && m in QueueAll(xs, q)
    decreases xs
  {
    if xs != [] {
      InsertedKeeps(xs[0], q);
      QueueAllKeeps(xs[1..], Inserted(TimedCmp, xs[0], q), m);
    }
  }

  lemma InsertedKeeps(x: Timed, q: seq<Timed>)
    requires Sorted(TimedCmp, q)
    ensures var r := Inserted(TimedCmp, x, q); Sorted(TimedCmp, r) && x in r && forall t :: t in q ==> t in r
  {
    TimedCmpIsOrder();
    InsertedSorted(TimedCmp, x, q);
    var r := Inserted(TimedCmp, x, q);
    forall t | t in q ensures t in r {
      assert t in multiset(q);
      assert t in multiset(r);
    }
    assert x in multiset(r);
  }

  lemma {:induction false} DrainDue(q: seq<Timed>, pace: Pace, now: int, chans: seq<Chan>, wire: nat)
    requires pace.ts <= now
    ensures forall t :: t in Drain(q, pace, now, chans, wire).handled ==> t.at <= now
  {
    if q != [] {
      if q[0].at > now {
        DrainDue(q[1..], pace, now, chans, wire);
      } else {
        match Attempt(q[0], pace, now, chans, wire)
        case Stay(_, _, _) =>
        case Drop(p) => DrainDue(q[1..], p, now, chans, wire);
        case Send(p) => DrainDue(q[1..], p, now, chans, wire - 1);
      }
    }
  }

  predicate Splits(q: seq<Timed>, a: seq<Timed>, b: seq<Timed>) {
    multiset(q) == multiset(a) + multiset(b)
  }

  lemma SplitsMore(q: seq<Timed>, a: seq<Timed>, b: seq<Timed>)
    requires q != [] && Splits(q[1..], a, b)
    ensures Splits(q, [q[0]] + a, b) && Splits(q, a, [q[0]] + b)
  {
    assert q == [q[0]] + q[1..];
  }

  /** A pass loses no command and makes none up. */
  lemma {:induction false} DrainKeeps(q: seq<Timed>, pace: Pace, now: int, chans: seq<Chan>, wire: nat)
    requires pace.ts <= now
    ensures var r := Drain(q, pace, now, chans, wire); Splits(q, r.handled, r.rest)
  {
    hide Attempt;
    if q == [] || (q[0].at <= now && Attempt(q[0], pace, now, chans, wire).Stay?) {
      return;
    }
    var t;
    if q[0].at > now {
      t := Drain(q[1..], pace, now, chans, wire);
      DrainKeeps(q[1..], pace, now, chans, wire);
    } else {
      match Attempt(q[0], pace, now, chans, wire)
      case Drop(p) =>
        t := Drain(q[1..], p, now, chans, wire);
        DrainKeeps(q[1..], p, now, chans, wire);
      case Send(p) =>
        t := Drain(q[1..], p, now, chans, wire - 1);
        DrainKeeps(q[1..], p, now, chans, wire - 1);
    }
    hide Splits;
    SplitsMore(q, t.handled, t.rest);
  }

  lemma {:induction false} DrainSorted(q: seq<Timed>, pace: Pace, now: int, chans: seq<Chan>, wire: nat)
    requires pace.ts <= now && Sorted(TimedCmp, q)
    ensures Sorted(TimedCmp, Drain(q, pace, now, chans, wire).rest)
  {
    if q != [] {
      if q[0].at > now {
        DrainSorted(q[1..], pace, now, chans, wire);
        DrainKeeps(q[1..], pace, now, chans, wire);
        StillSorted(q, Drain(q[1..], pace, now, chans, wire));
      } else {
        match Attempt(q[0], pace, now, chans, wire)
        case Stay(_, _, _) =>
        case Drop(p) => DrainSorted(q[1..], p, now, chans, wire);
        case Send(p) => DrainSorted(q[1..], p, now, chans, wire - 1);
      }
    }
  }

  lemma StillSorted(q: seq<Timed>, t: Pass)
    requires q != [] && Splits(q[1..], t.handled, t.rest)
    ensures Sorted(TimedCmp, q) && Sorted(TimedCmp, t.rest) ==> Sorted(TimedCmp, [q[0]] + t.rest)
  {
    if Sorted(TimedCmp, q) && Sorted(TimedCmp, t.rest) {
      forall j | 0 <= j < |t.rest| ensures TimedCmp(q[0], t.rest[j]) != -1 {
        assert t.rest[j] in multiset(t.rest);
        assert t.rest[j] in multiset(q[1..]);
        var i :| 0 <= i < |q[1..]| && q[1..][i] == t.rest[j];
        assert TimedCmp(q[0], q[i + 1]) != -1;
      }
    }
  }

  lemma {:induction false} DrainInOrder(q: seq<Timed>, pace: Pace, now: int, chans: seq<Chan>, wire: nat, m: Timed)
    requires pace.ts <= now && Sorted(TimedCmp, q) && m in q
    ensures After(Drain(q, pace, now, chans, wire).handled, m)
    decreases q, 1
  {
    if q[0].at > now {
      if m == q[0] {
        DrainDue(q, pace, now, chans, wire);
      } else {
        DrainInOrder(q[1..], pace, now, chans, wire, m);
      }
    } else {
      match Attempt(q[0], pace, now, chans, wire)
      case Stay(_, _, _) =>
      case Drop(p) => AfterNext(q, m, p, now, chans, wire);
      case Send(p) => AfterNext(q, m, p, now, chans, wire - 1);
    }
  }

  lemma {:induction false} AfterNext(q: seq<Timed>, m: Timed, p: Pace, now: int, chans: seq<Chan>, wire: nat)
    requires p.ts <= now && Sorted(TimedCmp, q) && m in q && q[0].at <= now
    ensures After([q[0]] + Drain(q[1..], p, now, chans, wire).handled, m)
    decreases q, 0
  {
    var t := Drain(q[1..], p, now, chans, wire).handled;
    var log := [q[0]] + t;
    assert !Behind(q[0], m) by {
      var i :| 0 <= i < |q| && q[i] == m;
      assert i == 0 || TimedCmp(q[0], q[i]) != -1;
    }
    if m != q[0] {
      assert m in q[1..];
      DrainInOrder(q[1..], p, now, chans, wire, m);
    }
    forall j | 0 <= j < |log| && Behind(log[j], m) ensures m in log[..j] {
      assert log[..j] == [q[0]] + t[..j - 1];
    }
  }

  /** Over any run of the main loop, what is behind `m` in the order of the queue is handled after `m`. */
  lemma {:induction false} InOrder(turns: seq<Turn>, q: seq<Timed>, pace: Pace, m: Timed)
    requires TurnsClocked(turns, pace.ts) && Sorted(TimedCmp, q) && m in q
    ensures After(Log(turns, q, pace), m)
    decreases turns
  {
    if turns != [] {
      var q1, mm := QueueAll(turns[0].added, q), turns[0].m;
      QueueAllKeeps(turns[0].added, q, m);
      var r := Process(q1, pace, mm);
      TurnsEarlier(turns[1..], mm.now, r.pace.ts);
      var log := Log(turns[1..], r.rest, r.pace);
      if Runs(mm) {
        DrainInOrder(q1, Lowered(pace, mm.now), mm.now, mm.chans, mm.wire, m);
        DrainKeeps(q1, Lowered(pace, mm.now), mm.now, mm.chans, mm.wire);
        DrainSorted(q1, Lowered(pace, mm.now), mm.now, mm.chans, mm.wire);
        assert m in multiset(q1);
      }
      if m !in r.handled {
        assert m in multiset(r.rest);
        InOrder(turns[1..], r.rest, r.pace, m);
      }
      AfterJoined(r.handled, log, m);
    }
  }

  lemma AfterJoined(a: seq<Timed>, b: seq<Timed>, m: Timed)
    requires After(a, m) && (m in a || After(b, m))
    ensures After(a + b, m)
  {
    var log := a + b;
    forall j | 0 <= j < |log| && Behind(log[j], m) ensures m in log[..j] {
      if j < |a| {
        assert log[..j] == a[..j];
      } else {
        assert log[..j] == a + b[..j - |a|];
      }
    }
  }
}
