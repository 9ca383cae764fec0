/** How long a ban lasts: the `-b` that `banuser` queues along with the `+b`, followed through the main loop. */
module BanLifting {
  import opened Chars
  import opened Options
  import opened SortedQueue
  import opened Scheduler
  import opened Batching
  import opened Flushing
  import opened Delivery
  import opened BanKick
  import opened NickModes
  import opened MainLoop
  import ChanModes
  import GuardLoop
  import ModeLines
  import ModeReading

  // ---------------------------------------------------------------- what the ban leaves waiting

  /** The modes for a target. */
  function ForTarget(ms: seq<Mmode>, target: string): seq<Mmode> {
    if ms == [] then []
    else (if ms[0].target == Some(target) then [ms[0]] else []) + ForTarget(ms[1..], target)
  }

  lemma ForTargetFirst(m: Mmode, ms: seq<Mmode>, target: string)
    ensures ForTarget([m] + ms, target) == (if m.target == Some(target) then [m] else []) + ForTarget(ms, target)
  {
    assert ([m] + ms)[1..] == ms;
  }

  lemma {:induction false} ForTargetConcat(a: seq<Mmode>, b: seq<Mmode>, target: string)
    ensures ForTarget(a + b, target) == ForTarget(a, target) + ForTarget(b, target)
  {
    if a == [] {
      assert a + b == b;
    } else {
      hide ForTarget;
      assert a == [a[0]] + a[1..] && a + b == [a[0]] + (a[1..] + b);
      ForTargetFirst(a[0], a[1..], target);
      ForTargetFirst(a[0], a[1..] + b, target);
      ForTargetConcat(a[1..], b, target);
    }
  }

  lemma {:induction false} ForTargetHolds(ms: seq<Mmode>, target: string, m: Mmode)
    ensures m in ForTarget(ms, target) <==> m in ms && m.target == Some(target)
  {
    if ms != [] {
      ForTargetHolds(ms[1..], target, m);
      assert ms == [ms[0]] + ms[1..];
    }
  }

  /** A mode goes behind those for earlier times, ahead of those for later ones. */
  lemma InsertedAmong(x: Mmode, ms: seq<Mmode>, target: string) returns (k: nat)
    requires ByTime(ms) && x.target == Some(target)
    ensures k <= |ms| && ByTime(Inserted(MmodeCmp, x, ms))
    ensures forall i :: 0 <= i < |ms| ==> (i < k <==> ms[i].at <= x.at)
    ensures ForTarget(Inserted(MmodeCmp, x, ms), target)
         == ForTarget(ms[..k], target) + [x] + ForTarget(ms[k..], target)
  {
    SortedByTime(ms);
    MmodeCmpIsOrder();
    InsertedSorted(MmodeCmp, x, ms);
    k := InsertAt(MmodeCmp, x, ms, 0);
    SortedByTime(Inserted(MmodeCmp, x, ms));
    ForTargetConcat(ms[..k] + [x], ms[k..], target);
    ForTargetConcat(ms[..k], [x], target);
    assert ForTarget([x], target) == [x];
    hide ByTime, Sorted, IsOrder, ForTarget;
    assert forall i :: k <= i < |ms| ==> MmodeCmp(x, ms[i]) == 1;
  }

  /** On a channel where nothing waited for the mask, a ban leaves exactly two modes waiting for it: the `+b` at the
      time of the ban, and the `-b` when the ban time is over. */
  lemma {:induction false} BanForItsTime(sc: Scene, nick: string, when: int, ms: seq<Mmode>, mask: string)
    requires Addressed(sc.users) && MaskFor(sc, nick) == Some(mask) && sc.normalBan > 0
    requires ByTime(ms) && forall m :: m in ms ==> m.target != Some(mask)
    ensures ByTime(Banned(sc, nick, when, ms))
    ensures ForTarget(Banned(sc, nick, when, ms), mask)
         == [Mmode(when, "+b", Some(mask)), Mmode(when + sc.normalBan, "-b", Some(mask))]
  {
    hide MaskFor, ByTime, ForTarget, Inserted;
    var plus, minus := Mmode(when, "+b", Some(mask)), Mmode(when + sc.normalBan, "-b", Some(mask));
    var j := InsertedAmong(plus, ms, mask);
    NothingFor(ms[..j], mask);
    NothingFor(ms[j..], mask);
    var one := Inserted(MmodeCmp, plus, ms);
    assert ForTarget(one, mask) == [plus];
    var k := InsertedAmong(minus, one, mask);
    EarlierFirst(one, k, mask, plus);
  }

  lemma NothingFor(ms: seq<Mmode>, target: string)
    requires forall m :: m in ms ==> m.target != Some(target)
    ensures ForTarget(ms, target) == []
  {
    if ForTarget(ms, target) != [] {
      ForTargetHolds(ms, target, ForTarget(ms, target)[0]);
    }
  }

  lemma EarlierFirst(ms: seq<Mmode>, k: nat, target: string, plus: Mmode)
    requires ForTarget(ms, target) == [plus] && k <= |ms|
    requires forall i :: 0 <= i < |ms| && ms[i] == plus ==> i < k
    ensures ForTarget(ms[..k], target) == [plus] && ForTarget(ms[k..], target) == []
  {
    ForTargetConcat(ms[..k], ms[k..], target);
    assert ms == ms[..k] + ms[k..];
    ForTargetHolds(ms, target, plus);
    hide ForTarget;
    var i :| 0 <= i < |ms| && ms[i] == plus;
    assert ms[..k][i] == plus;
    ForTargetHolds(ms[..k], target, plus);
    assert |ForTarget(ms[..k], target)| + |ForTarget(ms[k..], target)| == 1;
  }

  // ---------------------------------------------------------------- the end of the ban, over runs

  /** The mode ends the ban of the mask. */
  predicate Lifts(m: Mmode, mask: string) {
    m.command == "-b" && m.target == Some(mask)
  }

  /** The one end of the ban that waits. */
  predicate Held(ms: seq<Mmode>, at: int, mask: string) {
    && Mmode(at, "-b", Some(mask)) in ms
    && forall m :: m in ms && Lifts(m, mask) ==> m.at == at
  }

  /** Nobody named as the mask leaves, changes nick or takes it as a nick, and nothing else ends the ban. */
  predicate Quiet(es: seq<Event>, c: nat, mask: string) {
    forall e :: e in es && Concerns(e, c) ==>
      match e
      case Comes(_, m) => !Lifts(m, mask)
      case Queues(_) => true
      case Leaves(_, nick) => !SameText(mask, nick)
      case Renames(_, nick, to) => !SameText(mask, nick) && to != mask
  }

  lemma {:induction false} WithoutFrom(ms: seq<Mmode>, nick: string)
    ensures forall m :: m in Without(ms, nick) ==> m in ms
  {
    if ms != [] {
      WithoutFrom(ms[1..], nick);
      assert ms == [ms[0]] + ms[1..];
    }
  }

  lemma InsertedFrom(x: Mmode, ms: seq<Mmode>)
    ensures forall m :: m in Inserted(MmodeCmp, x, ms) <==> m == x || m in ms
  {
    var k := InsertAt(MmodeCmp, x, ms, 0);
    assert ms == ms[..k] + ms[k..];
  }

  lemma StaysHeld(ms: seq<Mmode>, e: Event, c: nat, at: int, mask: string)
    requires Held(ms, at, mask) && Quiet([e], c, mask) && Concerns(e, c)
    ensures Held(Touched(ms, e), at, mask)
  {
    assert e in [e];
    var minus := Mmode(at, "-b", Some(mask));
    match e {
      case Comes(_, m) => InsertedFrom(m, ms);
      case Leaves(_, nick) =>
        WithoutFrom(ms, nick);
        StaysWithout(ms, nick, minus);
      case Renames(_, nick, to) =>
        var i :| 0 <= i < |ms| && ms[i] == minus;
        assert Renamed(ms, nick, to)[i] == minus;
        forall m | m in Renamed(ms, nick, to) && Lifts(m, mask) ensures m.at == at {
          var j :| 0 <= j < |ms| && Renamed(ms, nick, to)[j] == m;
          assert ms[j] in ms;
        }
    }
  }

  lemma {:induction false} HeldThrough(ws: seq<Waiting>, es: seq<Event>, c: nat, at: int, mask: string)
    requires c < |ws| && Held(ws[c].modes, at, mask) && Quiet(es, c, mask)
    ensures Arrived(ws, es).Some? ==> Held(Arrived(ws, es).value[c].modes, at, mask)
    decreases es
  {
    hide Held, Lifts, Touched;
    if es != [] && !Founders(ws, es[0]) {
      assert es[0] in es && forall e :: e in es[1..] ==> e in es;
      assert forall e :: e in [es[0]] ==> e in es;
      if Concerns(es[0], c) {
        StaysHeld(ws[c].modes, es[0], c, at, mask);
      }
      HeldThrough(Happened(ws, es[0]), es[1..], c, at, mask);
    }
  }

  /** A flush ahead of that time takes no end of the ban along. */
  lemma NotYet(w: Waiting, now: int, limit: nat, at: int, mask: string)
    requires Held(w.modes, at, mask) && now < at
    ensures Held(Taken(w, now, limit).kept, at, mask)
    ensures forall b, m :: b in Taken(w, now, limit).batches && m in b.modes ==> !Lifts(m, mask)
  {
    var f := Taken(w, now, limit);
    FlushConserves(w.modes, now, limit, now, []);
    assert Joined(f.batches) == DueModes(w.modes, now);
    hide Taken, Lifts;
    LaterHolds(w.modes, now);
    DueFrom(w.modes, now);
    forall b, m | b in f.batches && m in b.modes ensures !Lifts(m, mask) {
      JoinedAll(f.batches, b, m);
    }
  }

  lemma {:induction false} LaterHolds(ms: seq<Mmode>, now: int)
    ensures forall m :: m in LaterModes(ms, now) <==> m in ms && m.at > now
  {
    if ms != [] {
      LaterHolds(ms[1..], now);
      assert ms == [ms[0]] + ms[1..];
    }
  }

  lemma {:induction false} DueFrom(ms: seq<Mmode>, now: int)
    ensures forall m :: m in DueModes(ms, now) ==> m in ms && m.at <= now
  {
    if ms != [] {
      DueFrom(ms[1..], now);
      assert ms == [ms[0]] + ms[1..];
    }
  }

  lemma {:induction false} JoinedAll(batches: seq<Batch>, b: Batch, m: Mmode)
    requires b in batches && m in b.modes
    ensures m in Joined(batches)
  {
    if b != batches[0] {
      JoinedAll(batches[1..], b, m);
    }
  }

  /** The MODE commands that turn `k` of a run makes for channel `c`. */
  function Made(w: World, xs: seq<Input>, c: nat, k: nat): seq<Batch>
    requires InputsClocked(xs, w.pace.ts) && k < |xs| && c < |w.ws|
    decreases k
  {
    if !Goes(w, xs[0]) then []
    else if k == 0 then Taken(Arrived(w.ws, xs[0].events).value[c], xs[0].m.now, xs[0].limit).batches
    else Made(Next(w, xs), xs[1..], c, k - 1)
  }

  /** The bot gets through the first `n` turns. */
  predicate GetsThrough(w: World, xs: seq<Input>, n: nat)
    requires InputsClocked(xs, w.pace.ts) && n <= |xs|
    decreases n
  {
    n > 0 ==> Goes(w, xs[0]) && GetsThrough(Next(w, xs), xs[1..], n - 1)
  }

  lemma {:induction false} ClockGrows(xs: seq<Input>, ts: int, k: nat)
    requires InputsClocked(xs, ts) && k < |xs|
    ensures xs[0].m.now <= xs[k].m.now
    decreases k
  {
    if k > 0 {
      ClockGrows(xs[1..], xs[0].m.now, k - 1);
    }
  }

  predicate AllQuiet(xs: seq<Input>, c: nat, mask: string, n: nat)
    requires n <= |xs|
  {
    forall j :: 0 <= j < n ==> Quiet(xs[j].events, c, mask)
  }

  lemma QuietTail(xs: seq<Input>, c: nat, mask: string, n: nat)
    requires 0 < n <= |xs| && AllQuiet(xs, c, mask, n)
    ensures Quiet(xs[0].events, c, mask) && AllQuiet(xs[1..], c, mask, n - 1)
  {
    forall j | 0 <= j < n - 1 ensures Quiet(xs[1..][j].events, c, mask) {
      assert xs[1..][j] == xs[j + 1];
    }
  }

  lemma NextHeld(w: World, xs: seq<Input>, c: nat, at: int, mask: string)
    requires xs != [] && InputsClocked(xs, w.pace.ts) && Goes(w, xs[0]) && c < |w.ws|
    requires Held(w.ws[c].modes, at, mask) && Quiet(xs[0].events, c, mask) && xs[0].m.now < at
    ensures Held(Next(w, xs).ws[c].modes, at, mask)
  {
    HeldThrough(w.ws, xs[0].events, c, at, mask);
    NotYet(Arrived(w.ws, xs[0].events).value[c], xs[0].m.now, xs[0].limit, at, mask);
    hide Held, Arrived;
  }

  lemma {:induction false} HeldUntil(w: World, xs: seq<Input>, c: nat, k: nat, at: int, mask: string)
    requires InputsClocked(xs, w.pace.ts) && k < |xs| && c < |w.ws|
    requires Held(w.ws[c].modes, at, mask) && AllQuiet(xs, c, mask, k + 1)
    requires k > 0 ==> xs[k - 1].m.now < at
    ensures xs[k].m.now < at ==> forall b, m :: b in Made(w, xs, c, k) && m in b.modes ==> !Lifts(m, mask)
    ensures xs[k].m.now >= at && GetsThrough(w, xs, k + 1) ==>
      exists b :: b in Made(w, xs, c, k) && Mmode(at, "-b", Some(mask)) in b.modes
    decreases k
  {
    hide Held, Quiet, AllQuiet, Lifts, Taken;
    QuietTail(xs, c, mask, k + 1);
    if Goes(w, xs[0]) {
      if k == 0 {
        HeldNow(w, xs[0], c, at, mask);
      } else {
        hide Arrived;
        ClockGrows(xs, w.pace.ts, k - 1);
        NextHeld(w, xs, c, at, mask);
        HeldUntil(Next(w, xs), xs[1..], c, k - 1, at, mask);
      }
    }
  }

  /** The turn at hand. */
  lemma HeldNow(w: World, x: Input, c: nat, at: int, mask: string)
    requires Goes(w, x) && c < |w.ws| && Held(w.ws[c].modes, at, mask) && Quiet(x.events, c, mask)
    ensures var batches := Taken(Arrived(w.ws, x.events).value[c], x.m.now, x.limit).batches;
      && (x.m.now < at ==> forall b, m :: b in batches && m in b.modes ==> !Lifts(m, mask))
      && (x.m.now >= at ==> exists b :: b in batches && Mmode(at, "-b", Some(mask)) in b.modes)
  {
    hide Held, Quiet, Lifts, Taken;
    HeldThrough(w.ws, x.events, c, at, mask);
    var ready := Arrived(w.ws, x.events).value[c];
    if x.m.now < at {
      NotYet(ready, x.m.now, x.limit, at, mask);
    } else {
      MinusWaits(ready.modes, at, mask);
      var b := BatchOf(ready, Mmode(at, "-b", Some(mask)), x.m.now, x.limit);
    }
  }

  lemma MinusWaits(ms: seq<Mmode>, at: int, mask: string)
    requires Held(ms, at, mask)
    ensures Mmode(at, "-b", Some(mask)) in ms
  {
  }

  lemma BanHeld(sc: Scene, nick: string, when: int, ms: seq<Mmode>, mask: string)
    requires Addressed(sc.users) && MaskFor(sc, nick) == Some(mask) && sc.normalBan > 0
    requires forall m :: m in ms ==> !Lifts(m, mask)
    ensures Held(Banned(sc, nick, when, ms), when + sc.normalBan, mask)
  {
    hide MaskFor, Inserted;
    var plus, minus := Mmode(when, "+b", Some(mask)), Mmode(when + sc.normalBan, "-b", Some(mask));
    InsertedFrom(plus, ms);
    InsertedFrom(minus, Inserted(MmodeCmp, plus, ms));
  }

  lemma NextSorted(w: World, xs: seq<Input>)
    requires xs != [] && InputsClocked(xs, w.pace.ts) && Goes(w, xs[0]) && Sorted(TimedCmp, w.q)
    ensures Sorted(TimedCmp, Next(w, xs).q)
  {
    TurnReady(w, xs[0]);
    QueueAllSorted(TurnOf(w, xs[0]).added, w.q);
    var m := xs[0].m;
    if Runs(m) {
      DrainSorted(Ready(w, xs[0]), Lowered(w.pace, m.now), m.now, m.chans, m.wire);
    }
    hide Sorted, Ready, TurnOf, Drain;
  }

  /** A MODE command that a turn makes leaves in the run, or is still queued at its end. */
  lemma {:induction false} MadeLeaves(w: World, xs: seq<Input>, c: nat, k: nat, b: Batch)
    requires InputsClocked(xs, w.pace.ts) && k < |xs| && c < |w.ws| && Sorted(TimedCmp, w.q)
    requires b in Made(w, xs, c, k)
    ensures ModeCommand(w.ws[c].name, b) in LoopLog(w, xs) || ModeCommand(w.ws[c].name, b) in Final(w, xs).q
    decreases k
  {
    hide Sorted, ModeCommand, Taken, Ready;
    if k == 0 {
      MadeNow(w, xs, c, b);
    } else {
      NextSorted(w, xs);
      hide Arrived;
      MadeLeaves(Next(w, xs), xs[1..], c, k - 1, b);
    }
  }

  lemma MadeNow(w: World, xs: seq<Input>, c: nat, b: Batch)
    requires xs != [] && InputsClocked(xs, w.pace.ts) && Goes(w, xs[0]) && c < |w.ws| && Sorted(TimedCmp, w.q)
    requires b in Taken(Arrived(w.ws, xs[0].events).value[c], xs[0].m.now, xs[0].limit).batches
    ensures ModeCommand(w.ws[c].name, b) in LoopLog(w, xs) || ModeCommand(w.ws[c].name, b) in Final(w, xs).q
  {
    hide Sorted, ModeCommand, Taken, LoopLog, Final;
    var x, ws := xs[0], Arrived(w.ws, xs[0].events).value;
    var q := QueueAll(MainLoop.Commands(x.events), w.q);
    QueueAllSorted(MainLoop.Commands(x.events), w.q);
    FlushedQueues(ws, c, b, x.m.now, x.limit, q);
    assert ModeCommand(w.ws[c].name, b) in Ready(w, x);
    hide Ready;
    GuardLoop.LeavesOrStays(w, xs, ModeCommand(w.ws[c].name, b));
  }

  lemma BanHolds(sc: Scene, nick: string, now: int, reason: Option<string>, w: World, c: nat, ms0: seq<Mmode>,
                 q0: seq<Timed>, mask: string)
    requires AfterBanKick(sc, nick, now, reason, w.ws, c, w.q, ms0, [], q0, [])
    requires MaskFor(sc, nick) == Some(mask) && sc.normalBan > 0 && forall m :: m in ms0 ==> !Lifts(m, mask)
    ensures c < |w.ws| && Held(w.ws[c].modes, now - 1 + sc.normalBan, mask)
  {
    hide MaskFor, Banned, Held, KickOf, Kicked, Lifts, Inserted, Sorted, QueueAll;
    BanHeld(sc, nick, now - 1, ms0, mask);
  }

  /** End to end, over every run of the main loop that starts with the state a ban-kick leaves behind, as long as
      nothing else ends the ban: no MODE command with the `-b` is made in a turn before the ban time is over, and one
      is in the first turn from then on. */
  lemma {:induction false} BanLasts(sc: Scene, nick: string, now: int, reason: Option<string>, w: World, c: nat,
                                    ms0: seq<Mmode>, q0: seq<Timed>, xs: seq<Input>, k: nat, mask: string)
    requires AfterBanKick(sc, nick, now, reason, w.ws, c, w.q, ms0, [], q0, [])
    requires MaskFor(sc, nick) == Some(mask) && sc.normalBan > 0 && forall m :: m in ms0 ==> !Lifts(m, mask)
    requires InputsClocked(xs, w.pace.ts) && k < |xs| && AllQuiet(xs, c, mask, k + 1)
    requires k > 0 ==> xs[k - 1].m.now < now - 1 + sc.normalBan
    ensures xs[k].m.now < now - 1 + sc.normalBan ==>
      forall b, m :: b in Made(w, xs, c, k) && m in b.modes ==> !Lifts(m, mask)
    ensures xs[k].m.now >= now - 1 + sc.normalBan && GetsThrough(w, xs, k + 1) ==>
      exists b :: b in Made(w, xs, c, k) && Mmode(now - 1 + sc.normalBan, "-b", Some(mask)) in b.modes
  {
    hide MaskFor, Banned, Held, Made, GetsThrough, AllQuiet, Lifts, AfterBanKick;
    BanHolds(sc, nick, now, reason, w, c, ms0, q0, mask);
    HeldUntil(w, xs, c, k, now - 1 + sc.normalBan, mask);
  }

  /** The MODE command with the end of the ban says so when it leaves, if its modes are proper and no buffer cuts it. */
  lemma {:induction false} UnbanIsRead(name: string, b: Batch, at: int, mask: string)
    requires ModeLines.AllProper(b.modes) && ModeLines.Uncut(name, b.modes) && ModeLines.NEWLINE !in name
    requires Mmode(at, "-b", Some(mask)) in b.modes && ModeReading.GoodWord(mask)
    ensures var read := ModeLines.Understood(Line(ModeCommand(name, b)), name);
      read.Some? && ModeReading.Handled(ChanModes.Unban, mask) in read.value
  {
    var i :| 0 <= i < |b.modes| && b.modes[i] == Mmode(at, "-b", Some(mask));
    assert b == Batch(b.at, b.modes);
    ModeLines.BatchReadBack(name, b.modes, b.at);
    ModeLines.BanWanted(b.modes, i, '-', mask);
  }
}
