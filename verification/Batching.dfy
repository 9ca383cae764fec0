/** Channel modes waiting to be sent, and their way into the command queue:
    `mmode_new` and `mmodes2timeds` of ds.c. */
module Batching {
  import opened Chars
  import opened Options
  import opened SortedQueue
  import opened Scheduler

  datatype Mmode = Mmode(at: int, command: string, target: Option<string>)

  /** Time alone orders the modes of a channel. */
  function MmodeCmp(a: Mmode, b: Mmode): int {
    if a.at > b.at then -1 else if a.at < b.at then 1 else 0
  }

  lemma {:induction false} MmodeCmpIsOrder()
    ensures IsOrder(MmodeCmp)
  {
  }

  predicate ByTime(ms: seq<Mmode>) {
    forall i, j :: 0 <= i < j < |ms| ==> ms[i].at <= ms[j].at
  }

  /** Waiting modes are kept in the order of their times. */
  lemma {:induction false} SortedByTime(ms: seq<Mmode>)
    ensures Sorted(MmodeCmp, ms) <==> ByTime(ms)
  {
    forall i, j | 0 <= i < j < |ms| ensures MmodeCmp(ms[i], ms[j]) != -1 <==> ms[i].at <= ms[j].at {
    }
  }

  // ---------------------------------------------------------------- what a flush does

  /** The modes that share one MODE command, and the time the command is queued for. */
  datatype Batch = Batch(at: int, modes: seq<Mmode>)

  datatype Flush = Flush(batches: seq<Batch>, kept: seq<Mmode>)

  /** The loop of `mmodes2timeds` over one channel, `open` being the modes of the batch being filled. */
  function Collect(ms: seq<Mmode>, now: int, limit: nat, earliest: int, open: seq<Mmode>): Flush {
    if ms == [] then Flush(if open == [] then [] else [Batch(earliest, open)], [])
    else if ms[0].at > now then
      var f := Collect(ms[1..], now, limit, earliest, open);
      f.(kept := [ms[0]] + f.kept)
    else
      var e := if ms[0].at < earliest then ms[0].at else earliest;
      if |open| + 1 >= limit then
        var f := Collect(ms[1..], now, limit, e, []);
        f.(batches := [Batch(e, open + [ms[0]])] + f.batches)
      else Collect(ms[1..], now, limit, e, open + [ms[0]])
  }

  // ---------------------------------------------------------------- the text of a batch

  function Commands(ms: seq<Mmode>): (r: string)
    ensures |r| <= CHANLEN
  {
    if ms == [] then "" else Appended(Commands(ms[..|ms| - 1]), ms[|ms| - 1].command, CHANLEN)
  }

  function Targets(ms: seq<Mmode>): (r: string)
    ensures |r| <= WRITE_BUFFER_LENGTH
  {
    if ms == [] then ""
    else
      var before := Targets(ms[..|ms| - 1]);
      match ms[|ms| - 1].target
      case None => before
      case Some(t) => Appended(Appended(before, t, WRITE_BUFFER_LENGTH), " ", WRITE_BUFFER_LENGTH)
  }

  function ModeLine(name: string, command: string, target: string): string {
    Truncated("MODE " + name + " " + command + " " + target, WRITE_BUFFER_LENGTH)
  }

  function ModeCommand(name: string, b: Batch): Timed {
    Timed(b.at, Normal, PRIO_CHANNEL_PROTECTION, None, ModeLine(name, Commands(b.modes), Targets(b.modes)))
  }

  /** The queue after the batches of a channel were put on it one by one. */
  function Queued(name: string, batches: seq<Batch>, q: seq<Timed>): seq<Timed> {
    if batches == [] then q
    else Queued(name, batches[1..], Inserted(TimedCmp, ModeCommand(name, batches[0]), q))
  }

  // ---------------------------------------------------------------- conservation

  function DueModes(ms: seq<Mmode>, now: int): seq<Mmode> {
    if ms == [] then [] else (if ms[0].at <= now then [ms[0]] else []) + DueModes(ms[1..], now)
  }

  function LaterModes(ms: seq<Mmode>, now: int): seq<Mmode> {
    if ms == [] then [] else (if ms[0].at > now then [ms[0]] else []) + LaterModes(ms[1..], now)
  }

  function Joined(batches: seq<Batch>): seq<Mmode> {
    if batches == [] then [] else batches[0].modes + Joined(batches[1..])
  }

  /** A flush loses no mode, repeats none and reorders none; what is not due stays as it was. */
  lemma {:induction false} FlushConserves(ms: seq<Mmode>, now: int, limit: nat, earliest: int, open: seq<Mmode>)
    ensures var f := Collect(ms, now, limit, earliest, open);
      Joined(f.batches) == open + DueModes(ms, now) && f.kept == LaterModes(ms, now)
  {
    if ms == [] {
      if open != [] {
        assert Joined([Batch(earliest, open)]) == open + Joined([]);
      }
    } else if ms[0].at > now {
      FlushConserves(ms[1..], now, limit, earliest, open);
    } else {
      var e := if ms[0].at < earliest then ms[0].at else earliest;
      var more := open + [ms[0]];
      assert more + DueModes(ms[1..], now) == open + DueModes(ms, now);
      if |more| >= limit {
        FlushConserves(ms[1..], now, limit, e, []);
        assert Joined([Batch(e, more)] + Collect(ms[1..], now, limit, e, []).batches)
            == more + ([] + DueModes(ms[1..], now));
      } else {
        FlushConserves(ms[1..], now, limit, e, more);
      }
    }
  }

  /** Every batch but the last is full, and none is empty or too full. */
  predicate WellFilled(batches: seq<Batch>, limit: nat) {
    batches != [] ==>
      && 1 <= |batches[0].modes| <= limit
      && (|batches| > 1 ==> |batches[0].modes| == limit)
      && WellFilled(batches[1..], limit)
  }

  lemma {:induction false} FlushFills(ms: seq<Mmode>, now: int, limit: nat, earliest: int, open: seq<Mmode>)
    requires |open| < limit
    ensures WellFilled(Collect(ms, now, limit, earliest, open).batches, limit)
  {
    if ms != [] {
      if ms[0].at > now {
        FlushFills(ms[1..], now, limit, earliest, open);
      } else {
        var e := if ms[0].at < earliest then ms[0].at else earliest;
        FlushFills(ms[1..], now, limit, e, if |open| + 1 >= limit then [] else open + [ms[0]]);
      }
    }
  }

  predicate InTime(b: Batch, now: int) {
    b.at <= now && forall i :: 0 <= i < |b.modes| ==> b.at <= b.modes[i].at
  }

  /** No batch is queued for later than any of its modes, nor for later than now. */
  lemma {:induction false} FlushInTime(ms: seq<Mmode>, now: int, limit: nat, earliest: int, open: seq<Mmode>)
    requires InTime(Batch(earliest, open), now)
    ensures forall b :: b in Collect(ms, now, limit, earliest, open).batches ==> InTime(b, now)
  {
    if ms != [] {
      if ms[0].at > now {
        FlushInTime(ms[1..], now, limit, earliest, open);
      } else {
        var e := if ms[0].at < earliest then ms[0].at else earliest;
        assert InTime(Batch(e, open + [ms[0]]), now);
        FlushInTime(ms[1..], now, limit, e, if |open| + 1 >= limit then [] else open + [ms[0]]);
      }
    }
  }

  /** Behind the earliest mode no time changes any more. */
  lemma {:induction false} SameEarliest(ms: seq<Mmode>, now: int, limit: nat, earliest: int, open: seq<Mmode>)
    requires forall i :: 0 <= i < |ms| && ms[i].at <= now ==> earliest <= ms[i].at
    ensures forall b :: b in Collect(ms, now, limit, earliest, open).batches ==> b.at == earliest
  {
    if ms != [] {
      if ms[0].at > now {
        SameEarliest(ms[1..], now, limit, earliest, open);
      } else {
        SameEarliest(ms[1..], now, limit, earliest, if |open| + 1 >= limit then [] else open + [ms[0]]);
      }
    }
  }

  /** Every batch of a channel is queued for the time of the first mode that waits there, later batches, too. */
  lemma {:induction false} FlushTimes(ms: seq<Mmode>, now: int, limit: nat)
    requires ByTime(ms) && ms != []
    ensures forall b :: b in Collect(ms, now, limit, now, []).batches ==> b.at == ms[0].at
    ensures Collect(ms, now, limit, now, []).batches != [] <==> ms[0].at <= now
  {
    if ms[0].at > now {
      NothingCollected(ms, now, limit, now);
    } else {
      FlushConserves(ms, now, limit, now, []);
      assert DueModes(ms, now) != [] && [] + [ms[0]] == [ms[0]];
      SameEarliest(ms[1..], now, limit, ms[0].at, if 1 >= limit then [] else [ms[0]]);
    }
  }

  lemma {:induction false} NothingCollected(ms: seq<Mmode>, now: int, limit: nat, earliest: int)
    requires forall i :: 0 <= i < |ms| ==> ms[i].at > now
    ensures Collect(ms, now, limit, earliest, []).batches == []
  {
    if ms != [] {
      NothingCollected(ms[1..], now, limit, earliest);
    }
  }

  lemma {:induction false} JoinedHolds(batches: seq<Batch>, m: Mmode)
    requires m in Joined(batches)
    ensures exists b :: b in batches && m in b.modes
  {
    if m in batches[0].modes {
      assert batches[0] in batches;
    } else {
      JoinedHolds(batches[1..], m);
    }
  }

  /** The plain concatenation of the modes' commands, and of their targets with a space behind each. */
  function PlainCommands(ms: seq<Mmode>): string {
    if ms == [] then "" else PlainCommands(ms[..|ms| - 1]) + ms[|ms| - 1].command
  }

  function PlainTargets(ms: seq<Mmode>): string {
    if ms == [] then ""
    else
      var m := ms[|ms| - 1];
      PlainTargets(ms[..|ms| - 1]) + if m.target.Some? then m.target.value + " " else ""
  }

  /** The buffers hold the front of that text, and all of it when it fits. */
  lemma {:induction false} BuffersClip(ms: seq<Mmode>)
    ensures Commands(ms) == Clip(PlainCommands(ms), CHANLEN)
    ensures Targets(ms) == Clip(PlainTargets(ms), WRITE_BUFFER_LENGTH)
  {
    if ms != [] {
      var before, m := ms[..|ms| - 1], ms[|ms| - 1];
      BuffersClip(before);
      AppendedClips(PlainCommands(before), m.command, CHANLEN);
      if m.target.Some? {
        AppendedClips(PlainTargets(before), m.target.value, WRITE_BUFFER_LENGTH);
        AppendedClips(PlainTargets(before) + m.target.value, " ", WRITE_BUFFER_LENGTH);
        assert PlainTargets(ms) == PlainTargets(before) + m.target.value + " ";
      }
    }
  }

  // ---------------------------------------------------------------- the heap

  /** What a channel contributes here: its name and its waiting modes. */
  class ModeQueue {
    const name: string
    const mmodes: Queue<Mmode>

    constructor (name: string)
      ensures this.name == name && fresh(mmodes) && Valid() && mmodes.nodes == [] && mmodes.repr == {}
    {
      this.name := name;
      mmodes := new Queue<Mmode>(MmodeCmp);
    }

    ghost predicate Valid()
      reads mmodes, mmodes.repr
    {
      mmodes.Valid() && mmodes.cmp == MmodeCmp
    }
  }

  /** How far the walk over one channel has come: `i` modes were not due; the rest of the queue, the buffers and
      the command queue still have to yield what the flush is to yield. */
  ghost predicate OnWay(name: string, q: seq<Timed>, kept: seq<Mmode>, ms: seq<Mmode>, i: nat, now: int, limit: nat,
                        earliest: int, open: seq<Mmode>, queue: seq<Timed>) {
    && i <= |ms|
    && var f := Collect(ms[i..], now, limit, earliest, open);
      q == Queued(name, f.batches, queue) && kept == ms[..i] + f.kept
  }

  lemma KeepOne(name: string, q: seq<Timed>, kept: seq<Mmode>, ms: seq<Mmode>, i: nat, now: int, limit: nat,
                earliest: int, open: seq<Mmode>, queue: seq<Timed>)
    requires OnWay(name, q, kept, ms, i, now, limit, earliest, open, queue) && i < |ms| && ms[i].at > now
    ensures OnWay(name, q, kept, ms, i + 1, now, limit, earliest, open, queue)
  {
    assert ms[i..][1..] == ms[i + 1..];
    assert ms[..i + 1] == ms[..i] + [ms[i]];
  }

  function Earlier(a: int, b: int): int {
    if a < b then a else b
  }

  /** What stays open of a batch, and the command queue, once the batch is sent if it is full. */
  function StillOpen(limit: nat, ms: seq<Mmode>): seq<Mmode> {
    if |ms| >= limit then [] else ms
  }

  function SentOnto(name: string, limit: nat, b: Batch, queue: seq<Timed>): seq<Timed> {
    if |b.modes| >= limit then Inserted(TimedCmp, ModeCommand(name, b), queue) else queue
  }

  lemma TakeOne(name: string, q: seq<Timed>, kept: seq<Mmode>, ms: seq<Mmode>, i: nat, now: int, limit: nat,
                earliest: int, open: seq<Mmode>, queue: seq<Timed>)
    requires OnWay(name, q, kept, ms, i, now, limit, earliest, open, queue) && i < |ms| && ms[i].at <= now
    ensures var e, more := Earlier(ms[i].at, earliest), open + [ms[i]];
      OnWay(name, q, kept, Removed(ms, i), i, now, limit, e, StillOpen(limit, more),
            SentOnto(name, limit, Batch(e, more), queue))
  {
    assert ms[i..][1..] == Removed(ms, i)[i..];
    assert Removed(ms, i)[..i] == ms[..i];
    var e, more := Earlier(ms[i].at, earliest), open + [ms[i]];
    if |more| >= limit {
      var f := Collect(Removed(ms, i)[i..], now, limit, e, []);
      assert Collect(ms[i..], now, limit, earliest, open) == f.(batches := [Batch(e, more)] + f.batches);
      assert ([Batch(e, more)] + f.batches)[1..] == f.batches;
    }
  }

  lemma AllTaken(name: string, q: seq<Timed>, kept: seq<Mmode>, ms: seq<Mmode>, i: nat, now: int, limit: nat,
                 earliest: int, open: seq<Mmode>, queue: seq<Timed>)
    requires OnWay(name, q, kept, ms, i, now, limit, earliest, open, queue) && i == |ms|
    ensures kept == ms
    ensures q == if open == [] then queue else Inserted(TimedCmp, ModeCommand(name, Batch(earliest, open)), queue)
  {
    assert ms[i..] == [] && ms[..i] == ms;
    if open != [] {
      var b := Batch(earliest, open);
      assert [b][1..] == [];
      assert Queued(name, [b], queue) == Queued(name, [], Inserted(TimedCmp, ModeCommand(name, b), queue));
    }
  }

  lemma NothingBuffered()
    ensures Commands([]) == "" && Targets([]) == "" && Filled("", "", 0, [])
  {
  }

  /** Put the batch being filled on the command queue. */
  method SendBatch(name: string, timeds: Queue<Timed>, earliest: int, command: string, target: string, modes: nat,
                   ghost open: seq<Mmode>)
    requires timeds.Valid() && timeds.cmp == TimedCmp && Filled(command, target, modes, open)
    modifies timeds, timeds.repr
    ensures timeds.Valid() && fresh(timeds.repr - old(timeds.repr))
    ensures timeds.Contents() == Inserted(TimedCmp, ModeCommand(name, Batch(earliest, open)), old(timeds.Contents()))
  {
    var t := Timed(earliest, Normal, PRIO_CHANNEL_PROTECTION, None, ModeLine(name, command, target));
    var _ := timeds.Insert(t);
  }

  /** The buffers hold the modes of the batch being filled. */
  ghost predicate Filled(command: string, target: string, modes: nat, open: seq<Mmode>) {
    modes == |open| && command == Commands(open) && target == Targets(open)
  }

  /** Move a due mode from its queue into the batch being filled. */
  method TakeDue(ch: ModeQueue, timeds: Queue<Timed>, m1: Node<Mmode>, ghost i: nat, command: string, target: string,
                 modes: nat, earliest: int, ghost open: seq<Mmode>)
    returns (c: string, t: string, e: int)
    requires ch.mmodes.Valid() && i < |ch.mmodes.nodes| && m1 == ch.mmodes.nodes[i] && timeds.Valid()
    requires Filled(command, target, modes, open)
    modifies ch.mmodes, ch.mmodes.repr
    ensures ch.mmodes.Valid() && ch.mmodes.repr == old(ch.mmodes.repr)
    ensures ch.mmodes.nodes == Removed(old(ch.mmodes.nodes), i)
    ensures ch.mmodes.Contents() == Removed(old(ch.mmodes.Contents()), i)
    ensures timeds.Valid() && timeds.repr == old(timeds.repr) && timeds.Contents() == old(timeds.Contents())
    ensures Filled(c, t, modes + 1, open + [old(m1.val)]) && e == Earlier(old(m1.val.at), earliest)
  {
    var m := m1.val;
    e := if m.at < earliest then m.at else earliest;
    assert e == Earlier(m.at, earliest);
    hide *;
    c, t := Grown(command, target, modes, open, m);
    Unwait(ch, timeds, m1, i);
  }

  /** Take a mode off its queue; the command queue is left alone. */
  method Unwait(ch: ModeQueue, timeds: Queue<Timed>, m1: Node<Mmode>, ghost i: nat)
    requires ch.mmodes.Valid() && i < |ch.mmodes.nodes| && m1 == ch.mmodes.nodes[i] && timeds.Valid()
    modifies ch.mmodes, ch.mmodes.repr
    ensures ch.mmodes.Valid() && ch.mmodes.repr == old(ch.mmodes.repr)
    ensures ch.mmodes.nodes == Removed(old(ch.mmodes.nodes), i)
    ensures ch.mmodes.Contents() == Removed(old(ch.mmodes.Contents()), i)
    ensures timeds.Valid() && timeds.repr == old(timeds.repr) && timeds.Contents() == old(timeds.Contents())
  {
    hide *;
    ch.mmodes.Delete(m1, i);
  }

  /** The batch being filled goes out when it is full. */
  method SendIfFull(ch: ModeQueue, timeds: Queue<Timed>, limit: nat, earliest: int, command: string, target: string,
                    modes: nat, ghost open: seq<Mmode>)
    returns (c: string, t: string, n: nat, ghost o: seq<Mmode>)
    requires ch.mmodes.Valid() && timeds.Valid() && timeds.cmp == TimedCmp && Filled(command, target, modes, open)
    modifies timeds, timeds.repr
    ensures ch.mmodes.Valid() && ch.mmodes.repr == old(ch.mmodes.repr)
    ensures ch.mmodes.nodes == old(ch.mmodes.nodes) && ch.mmodes.Contents() == old(ch.mmodes.Contents())
    ensures timeds.Valid() && fresh(timeds.repr - old(timeds.repr))
    ensures Filled(c, t, n, o)
    ensures o == StillOpen(limit, open)
    ensures timeds.Contents() == SentOnto(ch.name, limit, Batch(earliest, open), old(timeds.Contents()))
  {
    NothingBuffered();
    FilledSize(command, target, modes, open);
    hide Filled, Commands, Targets, Inserted, ModeCommand, Queue.Valid, Queue.Contents;
    c, t, n, o := command, target, modes, open;
    if modes >= limit {
      SendBatch(ch.name, timeds, earliest, c, t, n, o);
      c, t, n, o := "", "", 0, [];
    }
  }

  /** The turn of the walk for a due mode. */
  method TakeNext(ch: ModeQueue, timeds: Queue<Timed>, m1: Node<Mmode>, ghost i: nat, now: int, limit: nat,
                  command: string, target: string, modes: nat, earliest: int, ghost open: seq<Mmode>,
                  ghost q: seq<Timed>, ghost kept: seq<Mmode>)
    returns (c: string, t: string, n: nat, e: int, ghost o: seq<Mmode>)
    requires ch.mmodes.Valid() && i < |ch.mmodes.nodes| && m1 == ch.mmodes.nodes[i] && m1.val.at <= now
    requires timeds.Valid() && timeds.cmp == TimedCmp
    requires Filled(command, target, modes, open)
    requires OnWay(ch.name, q, kept, ch.mmodes.Contents(), i, now, limit, earliest, open, timeds.Contents())
    modifies ch.mmodes, ch.mmodes.repr, timeds, timeds.repr
    ensures ch.mmodes.Valid() && ch.mmodes.repr == old(ch.mmodes.repr)
    ensures ch.mmodes.nodes == Removed(old(ch.mmodes.nodes), i)
    ensures timeds.Valid() && fresh(timeds.repr - old(timeds.repr))
    ensures Filled(c, t, n, o)
    ensures OnWay(ch.name, q, kept, ch.mmodes.Contents(), i, now, limit, e, o, timeds.Contents())
  {
    ch.mmodes.Stands(i);
    FilledSize(command, target, modes, open);
    TakeOne(ch.name, q, kept, ch.mmodes.Contents(), i, now, limit, earliest, open, timeds.Contents());
    hide *;
    ghost var more := open + [m1.val];
    c, t, e := TakeDue(ch, timeds, m1, i, command, target, modes, earliest, open);
    c, t, n, o := SendIfFull(ch, timeds, limit, e, c, t, modes + 1, more);
  }

  lemma FilledSize(command: string, target: string, modes: nat, open: seq<Mmode>)
    requires Filled(command, target, modes, open)
    ensures modes == |open|
  {
  }

  /** The walk over the modes of one channel; a batch that is not full yet is handed back. */
  method WalkModes(ch: ModeQueue, timeds: Queue<Timed>, now: int, limit: nat)
    returns (command: string, target: string, modes: nat, earliest: int, ghost open: seq<Mmode>)
    requires ch.Valid() && timeds.Valid() && timeds.cmp == TimedCmp && limit >= 1
    modifies ch.mmodes, ch.mmodes.repr, timeds, timeds.repr
    ensures ch.mmodes.Valid() && ch.mmodes.repr == old(ch.mmodes.repr)
    ensures timeds.Valid() && fresh(timeds.repr - old(timeds.repr))
    ensures Filled(command, target, modes, open)
    ensures var f := Collect(old(ch.mmodes.Contents()), now, limit, now, []);
      OnWay(ch.name, Queued(ch.name, f.batches, old(timeds.Contents())), f.kept, ch.mmodes.Contents(),
            |ch.mmodes.Contents()|, now, limit, earliest, open, timeds.Contents())
  {
    ghost var f := Collect(ch.mmodes.Contents(), now, limit, now, []);
    ghost var q, kept := Queued(ch.name, f.batches, timeds.Contents()), f.kept;
    var mmodes := ch.mmodes;
    command, target, modes, earliest, open := "", "", 0, now, [];
    var m1 := mmodes.first;
    ghost var i, ms := 0, mmodes.Contents();
    assert ms[0..] == ms && ms[..0] + f.kept == f.kept;
    mmodes.Head();
    NothingBuffered();
    hide *;
    while m1 != null
      invariant mmodes.Valid() && mmodes.repr == old(mmodes.repr)
      invariant timeds.Valid() && fresh(timeds.repr - old(timeds.repr))
      invariant 0 <= i <= |mmodes.nodes| && m1 == At(mmodes.nodes, i)
      invariant ms == mmodes.Contents()
      invariant Filled(command, target, modes, open)
      invariant OnWay(ch.name, q, kept, ms, i, now, limit, earliest, open, timeds.Contents())
      decreases |mmodes.nodes| - i
    {
      mmodes.Stands(i);
      var m2 := m1.next;
      if m1.val.at > now {
        KeepOne(ch.name, q, kept, ms, i, now, limit, earliest, open, timeds.Contents());
        i := i + 1;
      } else {
        command, target, modes, earliest, open :=
          TakeNext(ch, timeds, m1, i, now, limit, command, target, modes, earliest, open, q, kept);
        ms := mmodes.Contents();
      }
      m1 := m2;
    }
  }

  /** The body of `mmodes2timeds` for one channel. */
  method FlushChannel(ch: ModeQueue, timeds: Queue<Timed>, now: int, limit: nat)
    requires ch.Valid() && timeds.Valid() && timeds.cmp == TimedCmp && limit >= 1
    modifies ch.mmodes, ch.mmodes.repr, timeds, timeds.repr
    ensures ch.Valid() && ch.mmodes.repr == old(ch.mmodes.repr)
    ensures timeds.Valid() && fresh(timeds.repr - old(timeds.repr))
    ensures var f := Collect(old(ch.mmodes.Contents()), now, limit, now, []);
      && timeds.Contents() == Queued(ch.name, f.batches, old(timeds.Contents()))
      && ch.mmodes.Contents() == f.kept
  {
    ghost var f := Collect(ch.mmodes.Contents(), now, limit, now, []);
    ghost var q := Queued(ch.name, f.batches, timeds.Contents());
    hide Collect, Queued, OnWay, Commands, Targets, Inserted, Queue.Valid, Queue.Contents;
    var command, target, modes, earliest;
    ghost var open;
    command, target, modes, earliest, open := WalkModes(ch, timeds, now, limit);
    ghost var ms := ch.mmodes.Contents();
    AllTaken(ch.name, q, f.kept, ms, |ms|, now, limit, earliest, open, timeds.Contents());
    assert modes == |open|;
    if modes > 0 {
      SendBatch(ch.name, timeds, earliest, command, target, modes, open);
    }
  }

  /** The two buffers with one more mode in them. */
  method Grown(command: string, target: string, modes: nat, ghost open: seq<Mmode>, m: Mmode)
    returns (c: string, t: string)
    requires Filled(command, target, modes, open)
    ensures Filled(c, t, modes + 1, open + [m])
  {
    assert (open + [m])[..|open|] == open;
    c, t := Appended(command, m.command, CHANLEN), target;
    if m.target.Some? {
      t := Appended(target, m.target.value, WRITE_BUFFER_LENGTH);
      t := Appended(t, " ", WRITE_BUFFER_LENGTH);
    }
  }
}
