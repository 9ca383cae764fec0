/** What leaves the command queue first: higher priorities, and within a priority what is due earlier. */
module Ranking {
  import opened SortedQueue
  import opened Scheduler
  import opened Delivery
  import opened MainLoop

  // ---------------------------------------------------------------- the order, in plain terms

  /** `a` may stand ahead of `b`. */
  predicate Ahead(a: Timed, b: Timed) {
    a.prio > b.prio || (a.prio == b.prio && a.at <= b.at)
  }

  predicate Ranked(q: seq<Timed>) {
    forall i, j :: 0 <= i < j < |q| ==> Ahead(q[i], q[j])
  }

  /** The queue is kept by priority, highest first, and by time within a priority. */
  lemma {:induction false} SortedIsRanked(q: seq<Timed>)
    ensures Sorted(TimedCmp, q) <==> Ranked(q)
  {
    forall i, j | 0 <= i < j < |q| ensures TimedCmp(q[i], q[j]) != -1 <==> Ahead(q[i], q[j]) {
    }
  }

  /** A newcomer overtakes what has a lower priority, or the same and is due later, and nothing else. */
  lemma {:induction false} Overtakes(t: Timed, q: seq<Timed>) returns (k: nat)
    requires Ranked(q)
    ensures k <= |q| && Inserted(TimedCmp, t, q) == q[..k] + [t] + q[k..] && Ranked(Inserted(TimedCmp, t, q))
    ensures forall i :: 0 <= i < |q| ==> (i < k <==> Ahead(q[i], t))
  {
    SortedIsRanked(q);
    TimedCmpIsOrder();
    InsertedSorted(TimedCmp, t, q);
    k := InsertAt(TimedCmp, t, q, 0);
    SortedIsRanked(Inserted(TimedCmp, t, q));
    hide Ranked, Sorted, IsOrder;
    forall i | 0 <= i < |q| ensures i < k <==> Ahead(q[i], t) {
      assert i >= k ==> TimedCmp(t, q[i]) == 1;
    }
  }

  // ---------------------------------------------------------------- one pass

  /** Nothing due stays behind what it should have been ahead of. */
  ghost predicate NothingOvertaken(handled: seq<Timed>, rest: seq<Timed>, now: int) {
    forall t, u :: t in handled && u in rest && u.at <= now ==> Ahead(t, u)
  }

  lemma RankedTail(q: seq<Timed>)
    requires Ranked(q) && q != []
    ensures Ranked(q[1..]) && forall u :: u in q[1..] ==> Ahead(q[0], u)
  {
    forall u | u in q[1..] ensures Ahead(q[0], u) {
      var i :| 0 <= i < |q[1..]| && q[1..][i] == u;
      assert q[i + 1] == u;
    }
  }

  lemma RestWasThere(q: seq<Timed>, pace: Pace, now: int, chans: seq<Chan>, wire: nat)
    requires pace.ts <= now
    ensures forall u :: u in Drain(q, pace, now, chans, wire).rest ==> u in q
    ensures forall u :: u in Drain(q, pace, now, chans, wire).handled ==> u in q
  {
    var r := Drain(q, pace, now, chans, wire);
    DrainKeeps(q, pace, now, chans, wire);
    forall u | u in r.rest || u in r.handled ensures u in q {
      assert u in multiset(r.rest) || u in multiset(r.handled);
      assert u in multiset(q);
    }
  }

  lemma OneMoreAhead(q: seq<Timed>, handled: seq<Timed>, rest: seq<Timed>, now: int)
    requires Ranked(q) && q != [] && NothingOvertaken(handled, rest, now) && forall u :: u in rest ==> u in q[1..]
    ensures NothingOvertaken([q[0]] + handled, rest, now)
  {
    RankedTail(q);
  }

  /** A pass handles no command while one that is due and has a higher priority stays behind, nor an earlier one of the
      same priority. */
  lemma {:induction false} PassInRank(q: seq<Timed>, pace: Pace, now: int, chans: seq<Chan>, wire: nat)
    requires pace.ts <= now && Ranked(q)
    ensures var r := Drain(q, pace, now, chans, wire); NothingOvertaken(r.handled, r.rest, now)
  {
    hide Attempt, Ranked, Ahead;
    if q != [] {
      RankedTail(q);
      if q[0].at > now {
        PassInRank(q[1..], pace, now, chans, wire);
      } else {
        match Attempt(q[0], pace, now, chans, wire)
        case Stay(_, _, _) =>
        case Drop(p) =>
          PassInRank(q[1..], p, now, chans, wire);
          RestWasThere(q[1..], p, now, chans, wire);
          var r := Drain(q[1..], p, now, chans, wire);
          OneMoreAhead(q, r.handled, r.rest, now);
        case Send(p) =>
          PassInRank(q[1..], p, now, chans, wire - 1);
          RestWasThere(q[1..], p, now, chans, wire - 1);
          var r := Drain(q[1..], p, now, chans, wire - 1);
          OneMoreAhead(q, r.handled, r.rest, now);
      }
    }
  }

  // ---------------------------------------------------------------- runs

  /** Whatever `log` holds that `m` should have been ahead of comes after `m`. */
  ghost predicate Precedes(log: seq<Timed>, m: Timed) {
    forall j :: 0 <= j < |log| && !Ahead(log[j], m) ==> m in log[..j]
  }

  lemma {:induction false} DueRanked(q: seq<Timed>, now: int)
    requires Ranked(q)
    ensures Ranked(DueOf(q, now)) && forall t :: t in DueOf(q, now) <==> t in q && t.at <= now
  {
    if q != [] {
      RankedTail(q);
      DueRanked(q[1..], now);
      assert q == [q[0]] + q[1..];
    }
  }

  lemma HandledRanked(q: seq<Timed>, pace: Pace, now: int, chans: seq<Chan>, wire: nat)
    requires pace.ts <= now && Ranked(q)
    ensures Ranked(Drain(q, pace, now, chans, wire).handled)
  {
    DrainPrefix(q, pace, now, chans, wire);
    DueRanked(q, now);
    hide Drain, DueOf, WithoutDue;
  }

  lemma RankedPrecedes(log: seq<Timed>, m: Timed)
    requires Ranked(log) && m in log
    ensures Precedes(log, m)
  {
    var i :| 0 <= i < |log| && log[i] == m;
    forall j | 0 <= j < |log| && !Ahead(log[j], m) ensures m in log[..j] {
      assert i < j && log[..j][i] == m;
    }
  }

  lemma LeftBehindPrecedes(handled: seq<Timed>, rest: seq<Timed>, now: int, m: Timed)
    requires NothingOvertaken(handled, rest, now) && m in rest && m.at <= now
    ensures Precedes(handled, m)
  {
  }

  lemma PassPrecedes(q: seq<Timed>, pace: Pace, now: int, chans: seq<Chan>, wire: nat, m: Timed)
    requires pace.ts <= now && Ranked(q) && m in q && m.at <= now
    ensures var r := Drain(q, pace, now, chans, wire); Precedes(r.handled, m) && (m in r.handled || m in r.rest)
  {
    hide Ranked, Precedes, Drain, NothingOvertaken;
    var r := Drain(q, pace, now, chans, wire);
    DrainKeeps(q, pace, now, chans, wire);
    assert m in multiset(q);
    if m in r.handled {
      HandledRanked(q, pace, now, chans, wire);
      RankedPrecedes(r.handled, m);
    } else {
      assert m in multiset(r.rest);
      PassInRank(q, pace, now, chans, wire);
      LeftBehindPrecedes(r.handled, r.rest, now, m);
    }
  }

  lemma PrecedesJoined(a: seq<Timed>, b: seq<Timed>, m: Timed)
    requires Precedes(a, m) && (m in a || Precedes(b, m))
    ensures Precedes(a + b, m)
  {
    var log := a + b;
    forall j | 0 <= j < |log| && !Ahead(log[j], m) ensures m in log[..j] {
      if j < |a| {
        assert log[..j] == a[..j];
      } else {
        assert log[..j] == a + b[..j - |a|];
      }
    }
  }

  lemma TurnPrecedes(q: seq<Timed>, pace: Pace, mm: Moment, m: Timed)
    requires pace.ts <= mm.now && Ranked(q) && m in q && m.at <= mm.now
    ensures var r := Process(q, pace, mm); Precedes(r.handled, m) && (m in r.handled || m in r.rest) && Ranked(r.rest)
  {
    if Runs(mm) {
      PassPrecedes(q, Lowered(pace, mm.now), mm.now, mm.chans, mm.wire, m);
      SortedIsRanked(q);
      DrainSorted(q, Lowered(pace, mm.now), mm.now, mm.chans, mm.wire);
      SortedIsRanked(Process(q, pace, mm).rest);
    }
  }

  /** Over every run, whatever comes in meanwhile: a command that is due leaves before everything of a lower priority,
      and before everything of its own that is due later. */
  lemma {:induction false} HigherFirst(turns: seq<Turn>, q: seq<Timed>, pace: Pace, m: Timed)
    requires TurnsClocked(turns, pace.ts) && Ranked(q) && m in q && (turns != [] ==> m.at <= turns[0].m.now)
    ensures Precedes(Log(turns, q, pace), m)
    decreases turns
  {
    hide Ahead, Ranked, Precedes;
    if turns == [] {
      NothingYet(m);
    } else {
      var added, mm := turns[0].added, turns[0].m;
      SortedIsRanked(q);
      QueueAllKeeps(added, q, m);
      SortedIsRanked(QueueAll(added, q));
      var r := Process(QueueAll(added, q), pace, mm);
      TurnPrecedes(QueueAll(added, q), pace, mm, m);
      TurnsEarlier(turns[1..], mm.now, r.pace.ts);
      if m !in r.handled {
        HigherFirst(turns[1..], r.rest, r.pace, m);
      }
      PrecedesJoined(r.handled, Log(turns[1..], r.rest, r.pace), m);
    }
  }

  lemma NothingYet(m: Timed)
    ensures Precedes([], m)
  {
  }

  /** And so over every run of the main loop, modes and all. */
  lemma {:induction false} HigherFirstLoop(w: World, xs: seq<Input>, m: Timed)
    requires InputsClocked(xs, w.pace.ts) && Ranked(w.q) && m in w.q && (xs != [] ==> m.at <= xs[0].m.now)
    ensures Precedes(LoopLog(w, xs), m)
  {
    LoopIsRun(w, xs);
    hide Ranked, Precedes, LoopLog;
    HigherFirst(TurnsOf(w, xs), w.q, w.pace, m);
  }
}
