/** Turns of the main loop of oer+MySQL.c: what came in, `mmodes2timeds`, `processtimeds`. */
module MainLoop {
  import opened Multisets
  import opened Options
  import opened SortedQueue
  import opened Scheduler
  import opened Batching
  import opened Flushing
  import opened Delivery
  import Pacing
  import opened BanKick
  import opened NickModes
  import opened Chars
  import opened BanMasks
  import ChanModes
  import ModeReading
  import ModeLines

  /** The waiting modes of every channel, the command queue and the rate limiter. */
  datatype World = World(ws: seq<Waiting>, q: seq<Timed>, pace: Pace)

  /** What happens to the queues in a turn before they are flushed and drained; `c` is the number of a channel. */
  datatype Event =
    | Comes(c: nat, m: Mmode)
    | Queues(t: Timed)
    | Leaves(c: nat, nick: string)
    | Renames(c: nat, nick: string, to: string)

  /** A turn: what happens in it, and the moment of the flush; `limit` is the number of modes that the server takes in
      one command. */
  datatype Input = Input(events: seq<Event>, m: Moment, limit: nat)

  /** The walks over the waiting modes of a channel need a target in each. */
  predicate Founders(ws: seq<Waiting>, e: Event) {
    (e.Leaves? || e.Renames?) && e.c < |ws| && !Targeted(ws[e.c].modes)
  }

  function Touched(ms: seq<Mmode>, e: Event): seq<Mmode> {
    match e
    case Comes(_, m) => Inserted(MmodeCmp, m, ms)
    case Queues(_) => ms
    case Leaves(_, nick) => Without(ms, nick)
    case Renames(_, nick, to) => Renamed(ms, nick, to)
  }

  predicate Concerns(e: Event, c: nat) {
    !e.Queues? && e.c == c
  }

  /** The waiting modes after an event. */
  function Happened(ws: seq<Waiting>, e: Event): (r: seq<Waiting>)
    ensures |r| == |ws| && forall c :: 0 <= c < |ws| ==>
      r[c] == if Concerns(e, c) then ws[c].(modes := Touched(ws[c].modes, e)) else ws[c]
  {
    if !e.Queues? && e.c < |ws| then ws[e.c := ws[e.c].(modes := Touched(ws[e.c].modes, e))] else ws
  }

  /** The waiting modes after the events of a turn, unless the bot founders on one of them. */
  function Arrived(ws: seq<Waiting>, es: seq<Event>): (r: Option<seq<Waiting>>)
    ensures r.Some? ==> |r.value| == |ws| && forall c :: 0 <= c < |ws| ==> r.value[c].name == ws[c].name
    decreases es
  {
    if es == [] then Some(ws)
    else if Founders(ws, es[0]) then None
    else Arrived(Happened(ws, es[0]), es[1..])
  }

  function Commands(es: seq<Event>): seq<Timed> {
    if es == [] then [] else (if es[0].Queues? then [es[0].t] else []) + Commands(es[1..])
  }

  predicate Goes(w: World, x: Input) {
    Arrived(w.ws, x.events).Some? && w.pace.ts <= x.m.now
  }

  /** The command queue that `processtimeds` finds. */
  function Ready(w: World, x: Input): seq<Timed>
    requires Goes(w, x)
  {
    FlushedAll(Arrived(w.ws, x.events).value, x.m.now, x.limit, QueueAll(Commands(x.events), w.q))
  }

  function Turned(w: World, x: Input): (r: World)
    requires Goes(w, x)
    ensures r.pace.ts <= x.m.now && |r.ws| == |w.ws|
    ensures forall c :: 0 <= c < |w.ws| ==> r.ws[c].name == w.ws[c].name
  {
    var r := Process(Ready(w, x), w.pace, x.m);
    World(AllRest(Arrived(w.ws, x.events).value, x.m.now, x.limit), r.rest, r.pace)
  }

  predicate InputsClocked(xs: seq<Input>, ts: int) {
    xs == [] || (ts <= xs[0].m.now && InputsClocked(xs[1..], xs[0].m.now))
  }

  lemma InputsEarlier(xs: seq<Input>, ts: int, earlier: int)
    requires InputsClocked(xs, ts) && earlier <= ts
    ensures InputsClocked(xs, earlier)
  {
  }

  /** The world after a turn, and the clock of the turns that follow. */
  function Next(w: World, xs: seq<Input>): (r: World)
    requires xs != [] && InputsClocked(xs, w.pace.ts) && Goes(w, xs[0])
    ensures r == Turned(w, xs[0]) && InputsClocked(xs[1..], r.pace.ts)
  {
    InputsEarlier(xs[1..], xs[0].m.now, Turned(w, xs[0]).pace.ts);
    Turned(w, xs[0])
  }

  /** Everything that leaves the queue over a run, in order. A run ends with its inputs, or where the bot founders. */
  function LoopLog(w: World, xs: seq<Input>): seq<Timed>
    requires InputsClocked(xs, w.pace.ts)
    decreases xs
  {
    if xs == [] || !Goes(w, xs[0]) then []
    else Process(Ready(w, xs[0]), w.pace, xs[0].m).handled + LoopLog(Next(w, xs), xs[1..])
  }

  function Final(w: World, xs: seq<Input>): (r: World)
    requires InputsClocked(xs, w.pace.ts)
    ensures |r.ws| == |w.ws|
    decreases xs
  {
    if xs == [] || !Goes(w, xs[0]) then w else Final(Next(w, xs), xs[1..])
  }

  /** The flush and the drain of one turn, in that order. */
  method MainTurn(bot: Bot, chs: seq<ModeQueue>, m: Moment, limit: nat, ghost ws: seq<Waiting>)
    returns (sent: seq<string>, failed: bool)
    requires bot.Valid() && bot.ts <= m.now && AllShow(chs, ws) && Apart(chs) && limit >= 1
    modifies bot`ts, bot`barrier, bot.timeds, bot.timeds.repr, set c | c in chs :: c.mmodes
    modifies Nodes(chs)
    ensures bot.Valid() && Apart(chs)
    ensures var w := World(ws, old(bot.timeds.Contents()), old(bot.ThePace()));
      var x := Input([], m, limit);
      && Goes(w, x) && AllShow(chs, Turned(w, x).ws)
      && bot.timeds.Contents() == Turned(w, x).q && bot.ThePace() == Turned(w, x).pace
      && sent == Process(Ready(w, x), w.pace, m).sent && failed == Process(Ready(w, x), w.pace, m).failed
  {
    ghost var w, x := World(ws, bot.timeds.Contents(), bot.ThePace()), Input([], m, limit);
    assert Arrived(ws, []) == Some(ws) && Commands([]) == [] && QueueAll([], w.q) == w.q;
    assert Goes(w, x) && Ready(w, x) == FlushedAll(ws, m.now, limit, w.q);
    assert Turned(w, x).ws == AllRest(ws, m.now, limit);
    hide Queue.Valid, Queue.Contents, AllShow, Apart, FlushedAll, Process;
    Mmodes2Timeds(chs, bot.timeds, m.now, limit, ws);
    sent, failed := bot.ProcessTimeds(m);
  }

  // ---------------------------------------------------------------- the loop as a run of the queue

  function BatchCommands(name: string, batches: seq<Batch>): seq<Timed> {
    if batches == [] then [] else [ModeCommand(name, batches[0])] + BatchCommands(name, batches[1..])
  }

  /** The commands that a flush queues. */
  function FlushCommands(ws: seq<Waiting>, now: int, limit: nat): seq<Timed> {
    if ws == [] then []
    else BatchCommands(ws[0].name, Taken(ws[0], now, limit).batches) + FlushCommands(ws[1..], now, limit)
  }

  lemma {:induction false} BatchesQueued(name: string, batches: seq<Batch>, q: seq<Timed>)
    ensures Queued(name, batches, q) == QueueAll(BatchCommands(name, batches), q)
    decreases batches
  {
    if batches != [] {
      assert BatchCommands(name, batches)[1..] == BatchCommands(name, batches[1..]);
      BatchesQueued(name, batches[1..], Inserted(TimedCmp, ModeCommand(name, batches[0]), q));
    }
  }

  lemma {:induction false} FlushQueued(ws: seq<Waiting>, now: int, limit: nat, q: seq<Timed>)
    ensures FlushedAll(ws, now, limit, q) == QueueAll(FlushCommands(ws, now, limit), q)
    decreases ws
  {
    if ws != [] {
      var name, batches := ws[0].name, Taken(ws[0], now, limit).batches;
      BatchesQueued(name, batches, q);
      QueueAllConcat(BatchCommands(name, batches), FlushCommands(ws[1..], now, limit), q);
      FlushQueued(ws[1..], now, limit, Queued(name, batches, q));
    }
  }

  function TurnOf(w: World, x: Input): Turn
    requires Goes(w, x)
  {
    Turn(Commands(x.events) + FlushCommands(Arrived(w.ws, x.events).value, x.m.now, x.limit), x.m)
  }

  function TurnsOf(w: World, xs: seq<Input>): seq<Turn>
    requires InputsClocked(xs, w.pace.ts)
    decreases xs
  {
    if xs == [] || !Goes(w, xs[0]) then [] else [TurnOf(w, xs[0])] + TurnsOf(Next(w, xs), xs[1..])
  }

  lemma TurnReady(w: World, x: Input)
    requires Goes(w, x)
    ensures Ready(w, x) == QueueAll(TurnOf(w, x).added, w.q)
  {
    var ws, cs := Arrived(w.ws, x.events).value, Commands(x.events);
    FlushQueued(ws, x.m.now, x.limit, QueueAll(cs, w.q));
    QueueAllConcat(cs, FlushCommands(ws, x.m.now, x.limit), w.q);
  }

  lemma {:induction false} TurnsOfClocked(w: World, xs: seq<Input>, ts: int)
    requires InputsClocked(xs, ts) && w.pace.ts <= ts && InputsClocked(xs, w.pace.ts)
    ensures TurnsClocked(TurnsOf(w, xs), ts)
    decreases xs
  {
    if xs != [] && Goes(w, xs[0]) {
      TurnsOfClocked(Next(w, xs), xs[1..], xs[0].m.now);
      assert TurnsOf(w, xs)[1..] == TurnsOf(Next(w, xs), xs[1..]);
    }
  }

  /** The main loop, modes and all, is a run of the command queue: what holds of every run holds of the loop. */
  lemma {:induction false} LoopIsRun(w: World, xs: seq<Input>)
    requires InputsClocked(xs, w.pace.ts)
    ensures TurnsClocked(TurnsOf(w, xs), w.pace.ts)
    ensures LoopLog(w, xs) == Log(TurnsOf(w, xs), w.q, w.pace)
    decreases xs
  {
    TurnsOfClocked(w, xs, w.pace.ts);
    if xs != [] && Goes(w, xs[0]) {
      TurnReady(w, xs[0]);
      LoopIsRun(Next(w, xs), xs[1..]);
      assert TurnsOf(w, xs)[1..] == TurnsOf(Next(w, xs), xs[1..]);
    }
  }

  // ---------------------------------------------------------------- conservation

  function AllAdded(turns: seq<Turn>): seq<Timed> {
    if turns == [] then [] else turns[0].added + AllAdded(turns[1..])
  }

  lemma {:induction false} QueueAllHolds(xs: seq<Timed>, q: seq<Timed>)
    ensures multiset(QueueAll(xs, q)) == multiset(q) + multiset(xs)
    decreases xs
  {
    if xs != [] {
      var k := InsertAt(TimedCmp, xs[0], q, 0);
      InsertedMultiset(xs[0], q, k);
      QueueAllHolds(xs[1..], Inserted(TimedCmp, xs[0], q));
      assert xs == [xs[0]] + xs[1..];
    }
  }

  /** Over every run of the main loop no command is lost or doubled: what was queued, came in or was made of modes
      has left the queue or is still on it. */
  lemma {:induction false} CommandsConserved(w: World, xs: seq<Input>)
    requires InputsClocked(xs, w.pace.ts)
    ensures multiset(w.q) + multiset(AllAdded(TurnsOf(w, xs))) == multiset(LoopLog(w, xs)) + multiset(Final(w, xs).q)
    decreases xs
  {
    if xs != [] && Goes(w, xs[0]) {
      var x, next := xs[0], Next(w, xs);
      CommandsConserved(next, xs[1..]);
      var ready, added := Ready(w, x), TurnOf(w, x).added;
      TurnReady(w, x);
      QueueAllHolds(added, w.q);
      var r := Process(ready, w.pace, x.m);
      ProcessKeeps(ready, w.pace, x.m);
      var turns := TurnsOf(next, xs[1..]);
      assert TurnsOf(w, xs)[1..] == turns;
      Balance(w.q, added, ready, r.handled, r.rest, AllAdded(turns), LoopLog(next, xs[1..]), Final(w, xs).q);
      hide Process, Ready, TurnOf, Turned;
    }
  }

  lemma ProcessKeeps(q: seq<Timed>, pace: Pace, m: Moment)
    requires pace.ts <= m.now
    ensures var r := Process(q, pace, m); multiset(q) == multiset(r.handled) + multiset(r.rest)
  {
    if Runs(m) {
      DrainKeeps(q, Lowered(pace, m.now), m.now, m.chans, m.wire);
    }
  }

  /** A mode without its target, which a change of nick rewrites. */
  datatype Bare = Bare(at: int, command: string)

  function BareOf(ms: seq<Mmode>): (r: seq<Bare>)
    ensures |r| == |ms| && forall i :: 0 <= i < |ms| ==> r[i] == Bare(ms[i].at, ms[i].command)
  {
    seq(|ms|, i requires 0 <= i < |ms| => Bare(ms[i].at, ms[i].command))
  }

  lemma BareConcat(a: seq<Mmode>, b: seq<Mmode>)
    ensures BareOf(a + b) == BareOf(a) + BareOf(b)
  {
  }

  /** The modes for a nick. */
  function Only(ms: seq<Mmode>, nick: string): seq<Mmode> {
    if ms == [] then [] else (if IsFor(ms[0], nick) then [ms[0]] else []) + Only(ms[1..], nick)
  }

  /** The modes of channel `c` that come in with events, and those that go with users. */
  function CameIn(ws: seq<Waiting>, es: seq<Event>, c: nat): seq<Mmode>
    requires Arrived(ws, es).Some?
    decreases es
  {
    if es == [] then []
    else (if es[0].Comes? && es[0].c == c then [es[0].m] else []) + CameIn(Happened(ws, es[0]), es[1..], c)
  }

  function WentWith(ws: seq<Waiting>, es: seq<Event>, c: nat): seq<Mmode>
    requires Arrived(ws, es).Some? && c < |ws|
    decreases es
  {
    if es == [] then []
    else
      var gone := if es[0].Leaves? && es[0].c == c then Only(ws[c].modes, es[0].nick) else [];
      gone + WentWith(Happened(ws, es[0]), es[1..], c)
  }

  /** The same over a run, and those that went into commands. */
  function AllCameIn(w: World, xs: seq<Input>, c: nat): seq<Mmode>
    requires InputsClocked(xs, w.pace.ts)
    decreases xs
  {
    if xs == [] || !Goes(w, xs[0]) then []
    else CameIn(w.ws, xs[0].events, c) + AllCameIn(Next(w, xs), xs[1..], c)
  }

  function AllWentOut(w: World, xs: seq<Input>, c: nat): seq<Mmode>
    requires InputsClocked(xs, w.pace.ts) && c < |w.ws|
    decreases xs
  {
    if xs == [] || !Goes(w, xs[0]) then []
    else
      var x := xs[0];
      WentWith(w.ws, x.events, c) + Joined(Taken(Arrived(w.ws, x.events).value[c], x.m.now, x.limit).batches)
        + AllWentOut(Next(w, xs), xs[1..], c)
  }

  lemma {:induction false} WithoutAndOnly(ms: seq<Mmode>, nick: string)
    ensures multiset(BareOf(ms)) == multiset(BareOf(Only(ms, nick))) + multiset(BareOf(Without(ms, nick)))
  {
    if ms != [] {
      WithoutAndOnly(ms[1..], nick);
      assert ms == [ms[0]] + ms[1..];
      BareConcat([ms[0]], ms[1..]);
      BareConcat([ms[0]], Only(ms[1..], nick));
      BareConcat([ms[0]], Without(ms[1..], nick));
      assert [] + Only(ms[1..], nick) == Only(ms[1..], nick) && [] + Without(ms[1..], nick) == Without(ms[1..], nick);
    }
  }

  lemma InsertedBare(m: Mmode, ms: seq<Mmode>)
    ensures multiset(BareOf(Inserted(MmodeCmp, m, ms))) == multiset(BareOf(ms)) + multiset(BareOf([m]))
  {
    var k := InsertAt(MmodeCmp, m, ms, 0);
    assert ms == ms[..k] + ms[k..];
    BareConcat(ms[..k], ms[k..]);
    BareConcat(ms[..k] + [m], ms[k..]);
    BareConcat(ms[..k], [m]);
  }

  /** One event: what was there and comes in is what goes and is there afterwards. */
  lemma EventBalances(ms: seq<Mmode>, e: Event)
    ensures multiset(BareOf(ms)) + multiset(BareOf(if e.Comes? then [e.m] else []))
         == multiset(BareOf(if e.Leaves? then Only(ms, e.nick) else [])) + multiset(BareOf(Touched(ms, e)))
  {
    match e {
      case Comes(_, m) => InsertedBare(m, ms);
      case Queues(_) =>
      case Leaves(_, nick) => WithoutAndOnly(ms, nick);
      case Renames(_, nick, to) => assert BareOf(Renamed(ms, nick, to)) == BareOf(ms);
    }
  }

  lemma {:induction false} EventsBalance(ws: seq<Waiting>, es: seq<Event>, c: nat)
    requires Arrived(ws, es).Some? && c < |ws|
    ensures multiset(BareOf(ws[c].modes)) + multiset(BareOf(CameIn(ws, es, c)))
         == multiset(BareOf(WentWith(ws, es, c))) + multiset(BareOf(Arrived(ws, es).value[c].modes))
    decreases es
  {
    if es != [] {
      var e, next := es[0], Happened(ws, es[0]);
      EventsBalance(next, es[1..], c);
      var came, went: seq<Mmode>, after := [], [], next[c].modes;
      if Concerns(e, c) {
        EventBalances(ws[c].modes, e);
        came, went := if e.Comes? then [e.m] else [], if e.Leaves? then Only(ws[c].modes, e.nick) else [];
      }
      BareConcat(came, CameIn(next, es[1..], c));
      BareConcat(went, WentWith(next, es[1..], c));
      Balance(BareOf(ws[c].modes), BareOf(came), BareOf(went) + BareOf(after), BareOf(went), BareOf(after),
              BareOf(CameIn(next, es[1..], c)), BareOf(WentWith(next, es[1..], c)),
              BareOf(Arrived(ws, es).value[c].modes));
    }
  }

  lemma BareHead(m: Mmode, ms: seq<Mmode>)
    ensures multiset(BareOf([m] + ms)) == multiset{Bare(m.at, m.command)} + multiset(BareOf(ms))
  {
    BareConcat([m], ms);
    assert BareOf([m]) == [Bare(m.at, m.command)];
  }

  lemma {:induction false} DueAndLater(ms: seq<Mmode>, now: int)
    ensures multiset(BareOf(ms)) == multiset(BareOf(DueModes(ms, now))) + multiset(BareOf(LaterModes(ms, now)))
  {
    if ms != [] {
      DueAndLater(ms[1..], now);
      assert ms == [ms[0]] + ms[1..];
      BareHead(ms[0], ms[1..]);
      if ms[0].at <= now {
        BareHead(ms[0], DueModes(ms[1..], now));
        assert LaterModes(ms, now) == LaterModes(ms[1..], now);
      } else {
        BareHead(ms[0], LaterModes(ms[1..], now));
        assert DueModes(ms, now) == DueModes(ms[1..], now);
      }
      hide BareOf;
    }
  }

  /** One turn. */
  lemma TurnBalances(w: World, x: Input, c: nat)
    requires Goes(w, x) && c < |w.ws|
    ensures var ws := Arrived(w.ws, x.events).value;
      var out := WentWith(w.ws, x.events, c) + Joined(Taken(ws[c], x.m.now, x.limit).batches);
      multiset(BareOf(w.ws[c].modes)) + multiset(BareOf(CameIn(w.ws, x.events, c)))
        == multiset(BareOf(out)) + multiset(BareOf(Turned(w, x).ws[c].modes))
  {
    var ready := Arrived(w.ws, x.events).value[c];
    var f := Taken(ready, x.m.now, x.limit);
    EventsBalance(w.ws, x.events, c);
    FlushConserves(ready.modes, x.m.now, x.limit, x.m.now, []);
    assert [] + DueModes(ready.modes, x.m.now) == DueModes(ready.modes, x.m.now);
    DueAndLater(ready.modes, x.m.now);
    BareConcat(WentWith(w.ws, x.events, c), Joined(f.batches));
    assert Turned(w, x).ws[c].modes == f.kept;
  }

  /** Nor is any mode of any channel, changes of nick aside: what waited or came in went into a command, went with the
      user it was for, or still waits. */
  lemma {:induction false} ModesConserved(w: World, xs: seq<Input>, c: nat)
    requires InputsClocked(xs, w.pace.ts) && c < |w.ws|
    ensures multiset(BareOf(w.ws[c].modes)) + multiset(BareOf(AllCameIn(w, xs, c)))
         == multiset(BareOf(AllWentOut(w, xs, c))) + multiset(BareOf(Final(w, xs).ws[c].modes))
    decreases xs
  {
    if xs != [] && Goes(w, xs[0]) {
      var x, next := xs[0], Next(w, xs);
      var came := CameIn(w.ws, x.events, c);
      var out := WentWith(w.ws, x.events, c)
        + Joined(Taken(Arrived(w.ws, x.events).value[c], x.m.now, x.limit).batches);
      ModesConserved(next, xs[1..], c);
      TurnBalances(w, x, c);
      BareConcat(came, AllCameIn(next, xs[1..], c));
      BareConcat(out, AllWentOut(next, xs[1..], c));
      assert AllWentOut(w, xs, c) == out + AllWentOut(next, xs[1..], c);
      hide Turned, Arrived, Taken, WentWith, CameIn;
      Balance(BareOf(w.ws[c].modes), BareOf(came), BareOf(out) + BareOf(next.ws[c].modes), BareOf(out),
              BareOf(next.ws[c].modes), BareOf(AllCameIn(next, xs[1..], c)), BareOf(AllWentOut(next, xs[1..], c)),
              BareOf(Final(w, xs).ws[c].modes));
    }
  }

  // ---------------------------------------------------------------- rate safety

  predicate Known(q: seq<Timed>) {
    forall t :: t in q ==> PRIO_WALL <= t.prio <= PRIO_CHANNEL_PROTECTION
  }

  function CallsOf(w: World, xs: seq<Input>): seq<Pacing.Call>
    requires InputsClocked(xs, w.pace.ts)
    decreases xs
  {
    if xs == [] || !Goes(w, xs[0]) then []
    else [Pacing.Call(Ready(w, xs[0]), xs[0].m)] + CallsOf(Next(w, xs), xs[1..])
  }

  lemma {:induction false} FlushKnown(ws: seq<Waiting>, now: int, limit: nat)
    ensures Known(FlushCommands(ws, now, limit))
  {
    if ws != [] {
      FlushKnown(ws[1..], now, limit);
      BatchesKnown(ws[0].name, Taken(ws[0], now, limit).batches);
    }
  }

  lemma {:induction false} BatchesKnown(name: string, batches: seq<Batch>)
    ensures Known(BatchCommands(name, batches))
  {
    if batches != [] {
      BatchesKnown(name, batches[1..]);
    }
  }

  lemma ReadyKnown(w: World, x: Input)
    requires Goes(w, x) && Known(w.q) && Known(Commands(x.events))
    ensures Known(Ready(w, x)) && Known(Turned(w, x).q)
  {
    TurnReady(w, x);
    var added := TurnOf(w, x).added;
    FlushKnown(Arrived(w.ws, x.events).value, x.m.now, x.limit);
    QueueAllHolds(added, w.q);
    forall t | t in Ready(w, x) ensures t in w.q || t in added {
      assert t in multiset(Ready(w, x));
    }
    ProcessKeeps(Ready(w, x), w.pace, x.m);
    forall t | t in Turned(w, x).q ensures t in Ready(w, x) {
      assert t in multiset(Turned(w, x).q);
      assert t in multiset(Ready(w, x));
    }
  }

  lemma {:induction false} CallsKnown(w: World, xs: seq<Input>, ts: int)
    requires InputsClocked(xs, ts) && w.pace.ts <= ts && InputsClocked(xs, w.pace.ts)
    requires Known(w.q) && forall k :: 0 <= k < |xs| ==> Known(Commands(xs[k].events))
    ensures Pacing.Clocked(CallsOf(w, xs), ts)
    ensures forall k :: 0 <= k < |CallsOf(w, xs)| ==> Pacing.KnownPrios(CallsOf(w, xs)[k].q)
    decreases xs
  {
    if xs != [] && Goes(w, xs[0]) {
      ReadyKnown(w, xs[0]);
      CallsKnown(Next(w, xs), xs[1..], xs[0].m.now);
      assert CallsOf(w, xs)[1..] == CallsOf(Next(w, xs), xs[1..]);
    }
  }

  /** Over every run of the main loop at most five commands are let through at any one clock value, however many
      modes and commands come in. */
  lemma {:induction false} LoopPaced(w: World, xs: seq<Input>, t: int)
    requires InputsClocked(xs, w.pace.ts)
    requires Known(w.q) && forall k :: 0 <= k < |xs| ==> Known(Commands(xs[k].events))
    ensures Pacing.Clocked(CallsOf(w, xs), w.pace.ts)
    ensures Pacing.AdmittedAt(CallsOf(w, xs), w.pace, t) <= 5
  {
    CallsKnown(w, xs, w.pace.ts);
    Pacing.AtMostFive(CallsOf(w, xs), w.pace, t);
  }

  // ---------------------------------------------------------------- ban before kick

  /** No user by that name leaves or changes nick. */
  predicate NoNick(es: seq<Event>, c: nat, name: string) {
    forall e :: e in es && (e.Leaves? || e.Renames?) && e.c == c ==> !SameText(name, e.nick)
  }

  /** Whatever happens in a turn, a mode for nobody who leaves or changes nick goes on waiting. */
  lemma {:induction false} GoesOnWaiting(ws: seq<Waiting>, es: seq<Event>, c: nat, m: Mmode)
    requires c < |ws| && m in ws[c].modes && m.target.Some? && NoNick(es, c, m.target.value)
    ensures Arrived(ws, es).Some? ==> m in Arrived(ws, es).value[c].modes
    decreases es
  {
    if es != [] && !Founders(ws, es[0]) {
      assert es[0] in es && forall e :: e in es[1..] ==> e in es;
      if Concerns(es[0], c) {
        StaysWaiting(ws[c].modes, es[0], c, m);
      }
      GoesOnWaiting(Happened(ws, es[0]), es[1..], c, m);
    }
  }

  lemma StaysWaiting(ms: seq<Mmode>, e: Event, c: nat, m: Mmode)
    requires m in ms && m.target.Some? && NoNick([e], c, m.target.value) && Concerns(e, c)
    ensures m in Touched(ms, e)
  {
    assert e in [e];
    match e {
      case Comes(_, x) => InsertedHolds(MmodeCmp, x, ms);
      case Leaves(_, nick) => StaysWithout(ms, nick, m);
      case Renames(_, nick, to) =>
        var i :| 0 <= i < |ms| && ms[i] == m;
        assert Renamed(ms, nick, to)[i] == m;
    }
  }

  lemma {:induction false} StaysWithout(ms: seq<Mmode>, nick: string, m: Mmode)
    requires m in ms && !IsFor(m, nick)
    ensures m in Without(ms, nick)
  {
    if m != ms[0] {
      StaysWithout(ms[1..], nick, m);
    }
  }

  /** A run of the loop, from the first flush on. */
  function FlushedTurns(w: World, xs: seq<Input>): seq<Turn>
    requires xs != [] && InputsClocked(xs, w.pace.ts) && Goes(w, xs[0])
  {
    [Turn([], xs[0].m)] + TurnsOf(Next(w, xs), xs[1..])
  }

  lemma {:induction false} FromFirstFlush(w: World, xs: seq<Input>)
    requires xs != [] && InputsClocked(xs, w.pace.ts) && Goes(w, xs[0])
    ensures TurnsClocked(FlushedTurns(w, xs), w.pace.ts)
    ensures LoopLog(w, xs) == Log(FlushedTurns(w, xs), Ready(w, xs[0]), w.pace)
  {
    var x, next := xs[0], Next(w, xs);
    LoopIsRun(next, xs[1..]);
    TurnsOfClocked(next, xs[1..], x.m.now);
    assert FlushedTurns(w, xs)[1..] == TurnsOf(next, xs[1..]);
    assert QueueAll([], Ready(w, x)) == Ready(w, x);
  }

  /** End to end, over every run of the main loop that starts with the state a ban-kick leaves behind, whatever comes
      in and whoever else leaves or changes nick: ahead of the KICK a MODE command with the ban leaves the queue. */
  lemma {:induction false} BanKickLoop(sc: Scene, nick: string, now: int, reason: Option<string>, w: World, c: nat,
                                       ms0: seq<Mmode>, q0: seq<Timed>, xs: seq<Input>)
    requires AfterBanKick(sc, nick, now, reason, w.ws, c, w.q, ms0, [], q0, [])
    requires MaskFor(sc, nick).Some? && sc.normalBan > 0
    requires InputsClocked(xs, w.pace.ts) && (xs != [] ==> now <= xs[0].m.now)
    requires xs != [] ==> NoNick(xs[0].events, c, MaskFor(sc, nick).value)
    ensures var log := LoopLog(w, xs);
      forall j :: 0 <= j < |log| && Some(log[j]) == KickOf(sc, w.ws[c].name, nick, now, reason) ==>
        exists b: Batch ::
          Mmode(now - 1, "+b", MaskFor(sc, nick)) in b.modes && ModeCommand(w.ws[c].name, b) in log[..j]
  {
    if xs != [] && Goes(w, xs[0]) {
      var x, plus := xs[0], Mmode(now - 1, "+b", MaskFor(sc, nick));
      BanWaits(sc, nick, now, reason, w, c, ms0, q0);
      GoesOnWaiting(w.ws, x.events, c, plus);
      QueueAllSorted(Commands(x.events), w.q);
      FromFirstFlush(w, xs);
      var ws, q := Arrived(w.ws, x.events).value, QueueAll(Commands(x.events), w.q);
      var turns := FlushedTurns(w, xs);
      var b := DueModeFirst(ws, c, plus, x.m.now, x.limit, q, turns, w.pace);
      assert ws[c].name == w.ws[c].name && Ready(w, x) == FlushedAll(ws, x.m.now, x.limit, q);
      hide Banned, MaskFor, Arrived, FlushedAll, FlushedTurns;
    }
  }

  lemma BanWaits(sc: Scene, nick: string, now: int, reason: Option<string>, w: World, c: nat, ms0: seq<Mmode>,
                 q0: seq<Timed>)
    requires AfterBanKick(sc, nick, now, reason, w.ws, c, w.q, ms0, [], q0, [])
    requires MaskFor(sc, nick).Some? && sc.normalBan > 0
    ensures c < |w.ws| && Mmode(now - 1, "+b", MaskFor(sc, nick)) in w.ws[c].modes && Sorted(TimedCmp, w.q)
  {
    var plus := Mmode(now - 1, "+b", MaskFor(sc, nick));
    var minus := Mmode(now - 1 + sc.normalBan, "-b", MaskFor(sc, nick));
    InsertedHolds(MmodeCmp, plus, ms0);
    InsertedHolds(MmodeCmp, minus, Inserted(MmodeCmp, plus, ms0));
    var kick := KickOf(sc, w.ws[c].name, nick, now, reason);
    if kick.Some? {
      InsertedKeeps(kick.value, q0);
    }
    hide MaskFor, KickOf;
  }

  /** A mask is nobody's nick: a nick holds no `!`, and a mask whose nick part fits its buffer does. */
  lemma {:induction false} MaskIsNoNick(sc: Scene, nick: string, name: string)
    requires Addressed(sc.users) && MaskFor(sc, nick).Some? && '!' !in name
    requires |FindUser(sc.users, nick).value.nick| < USERHOSTLEN - 1
    ensures !SameText(MaskFor(sc, nick).value, name)
  {
    var u := FindUser(sc.users, nick).value;
    var t := Choice(sc.bantype, Target(u), sc.setting, TYPE_INVALID).value;
    var mask, k := BanMask(t, Target(u)), |Part(UsesNick(t), u.nick)|;
    assert mask[k] == '!';
    assert MaskFor(sc, nick).value == mask;
    if k < |name| {
      NoBang(name, k);
      assert !SameText(mask, name) by {
        hide BanMask;
      }
    }
  }

  lemma NoBang(name: string, k: nat)
    requires '!' !in name && k < |name|
    ensures ToLower(name[k]) != ToLower('!')
  {
    assert name[k] in name;
  }

  /** What the MODE command with the ban says when it leaves: if every mode of the batch is a proper one and no buffer
      cuts the line, it asks for the ban of the mask. */
  lemma {:induction false} BanIsRead(name: string, b: Batch, at: int, mask: string)
    requires ModeLines.AllProper(b.modes) && ModeLines.Uncut(name, b.modes) && ModeLines.NEWLINE !in name
    requires Mmode(at, "+b", Some(mask)) in b.modes && ModeReading.GoodWord(mask)
    ensures var read := ModeLines.Understood(Line(ModeCommand(name, b)), name);
      read.Some? && ModeReading.Handled(ChanModes.Ban, mask) in read.value
  {
    var i :| 0 <= i < |b.modes| && b.modes[i] == Mmode(at, "+b", Some(mask));
    assert b == Batch(b.at, b.modes);
    ModeLines.BatchReadBack(name, b.modes, b.at);
    ModeLines.BanWanted(b.modes, i, '+', mask);
  }
}
