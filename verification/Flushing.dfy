/** `mmodes2timeds` of ds.c over all channels. */
module Flushing {
  import opened SortedQueue
  import opened Scheduler
  import opened Batching

  datatype Waiting = Waiting(name: string, modes: seq<Mmode>)

  function Taken(w: Waiting, now: int, limit: nat): Flush {
    Collect(w.modes, now, limit, now, [])
  }

  /** The command queue after every channel, in the order of the channel list, was flushed onto it. */
  function FlushedAll(ws: seq<Waiting>, now: int, limit: nat, q: seq<Timed>): seq<Timed> {
    if ws == [] then q
    else FlushedAll(ws[1..], now, limit, Queued(ws[0].name, Taken(ws[0], now, limit).batches, q))
  }

  lemma {:induction false} FlushedLast(ws: seq<Waiting>, now: int, limit: nat, q: seq<Timed>, w: Waiting)
    ensures FlushedAll(ws + [w], now, limit, q) ==
      Queued(w.name, Taken(w, now, limit).batches, FlushedAll(ws, now, limit, q))
  {
    if ws == [] {
      assert ([] + [w])[1..] == [];
    } else {
      assert (ws + [w])[1..] == ws[1..] + [w];
      FlushedLast(ws[1..], now, limit, Queued(ws[0].name, Taken(ws[0], now, limit).batches, q), w);
    }
  }

  lemma FlushedNext(ws: seq<Waiting>, c: nat, now: int, limit: nat, q: seq<Timed>)
    requires c < |ws|
    ensures FlushedAll(ws[..c + 1], now, limit, q) ==
      Queued(ws[c].name, Taken(ws[c], now, limit).batches, FlushedAll(ws[..c], now, limit, q))
  {
    FlushedLast(ws[..c], now, limit, q, ws[c]);
    assert ws[..c + 1] == ws[..c] + [ws[c]];
  }

  /** No two channels share a queue or a node. */
  ghost predicate Apart(chs: seq<ModeQueue>)
    reads set c | c in chs :: c.mmodes
  {
    forall i, j :: 0 <= i < j < |chs| ==> chs[i].mmodes != chs[j].mmodes && chs[i].mmodes.repr !! chs[j].mmodes.repr
  }

  ghost function Nodes(chs: seq<ModeQueue>): set<Node<Mmode>>
    reads set c | c in chs :: c.mmodes
  {
    set c, n | c in chs && n in c.mmodes.repr :: n
  }

  /** `w` is what waits in the channel. */
  ghost predicate Shows(ch: ModeQueue, w: Waiting)
    reads ch.mmodes, ch.mmodes.repr
  {
    ch.Valid() && ch.name == w.name && ch.mmodes.Contents() == w.modes
  }

  ghost predicate AllShow(chs: seq<ModeQueue>, ws: seq<Waiting>)
    reads set c | c in chs :: c.mmodes
    reads Nodes(chs)
  {
    |chs| == |ws| && forall i :: 0 <= i < |chs| ==> Shows(chs[i], ws[i])
  }

  function Rest(w: Waiting, now: int, limit: nat): Waiting {
    w.(modes := Taken(w, now, limit).kept)
  }

  function AllRest(ws: seq<Waiting>, now: int, limit: nat): (r: seq<Waiting>)
    ensures |r| == |ws| && forall i :: 0 <= i < |ws| ==> r[i] == Rest(ws[i], now, limit)
  {
    if ws == [] then [] else [Rest(ws[0], now, limit)] + AllRest(ws[1..], now, limit)
  }

  /** The channels ahead of `c` keep the rest of their modes, those from `c` on have all of theirs. */
  ghost predicate Midway(chs: seq<ModeQueue>, ws: seq<Waiting>, c: nat, now: int, limit: nat)
    reads set c | c in chs :: c.mmodes
    reads Nodes(chs)
  {
    && |chs| == |ws| && c <= |chs|
    && (forall i :: 0 <= i < c ==> Shows(chs[i], Rest(ws[i], now, limit)))
    && (forall i :: c <= i < |chs| ==> Shows(chs[i], ws[i]))
  }

  method Mmodes2Timeds(chs: seq<ModeQueue>, timeds: Queue<Timed>, now: int, limit: nat, ghost ws: seq<Waiting>)
    requires AllShow(chs, ws) && Apart(chs) && timeds.Valid() && timeds.cmp == TimedCmp && limit >= 1
    modifies timeds, timeds.repr, set c | c in chs :: c.mmodes
    modifies Nodes(chs)
    ensures AllShow(chs, AllRest(ws, now, limit)) && Apart(chs)
    ensures timeds.Valid() && fresh(timeds.repr - old(timeds.repr))
    ensures timeds.Contents() == FlushedAll(ws, now, limit, old(timeds.Contents()))
  {
    hide Apart, Shows, Queue.Valid, Queue.Contents, Rest;
    ghost var q := timeds.Contents();
    assert FlushedAll(ws[..0], now, limit, q) == q && Midway(chs, ws, 0, now, limit);
    var c := 0;
    while c < |chs|
      invariant 0 <= c <= |chs| && Apart(chs) && Midway(chs, ws, c, now, limit)
      invariant timeds.Valid() && fresh(timeds.repr - old(timeds.repr))
      invariant forall i :: 0 <= i < |chs| ==> chs[i].mmodes.repr == old(chs[i].mmodes.repr)
      invariant timeds.Contents() == FlushedAll(ws[..c], now, limit, q)
    {
      hide *;
      FlushNext(chs, c, timeds, now, limit, ws, q);
      c := c + 1;
    }
    assert ws[..|chs|] == ws;
  }

  /** One turn of the loop. */
  method FlushNext(chs: seq<ModeQueue>, c: nat, timeds: Queue<Timed>, now: int, limit: nat, ghost ws: seq<Waiting>,
                   ghost q: seq<Timed>)
    requires c < |chs| && Apart(chs) && Midway(chs, ws, c, now, limit)
    requires timeds.Valid() && timeds.cmp == TimedCmp && limit >= 1
    requires timeds.Contents() == FlushedAll(ws[..c], now, limit, q)
    modifies timeds, timeds.repr, chs[c].mmodes, chs[c].mmodes.repr
    ensures Apart(chs) && Midway(chs, ws, c + 1, now, limit)
    ensures timeds.Valid() && fresh(timeds.repr - old(timeds.repr))
    ensures forall i :: 0 <= i < |chs| ==> chs[i].mmodes.repr == old(chs[i].mmodes.repr)
    ensures timeds.Contents() == FlushedAll(ws[..c + 1], now, limit, q)
  {
    hide Apart, Shows, Queue.Valid, Queue.Contents, Rest, FlushedAll;
    FlushedNext(ws, c, now, limit, q);
    FlushOne(chs, c, timeds, now, limit, ws[c]);
  }

  /** One channel: the others are left alone. */
  method FlushOne(chs: seq<ModeQueue>, c: nat, timeds: Queue<Timed>, now: int, limit: nat, ghost w: Waiting)
    requires c < |chs| && Apart(chs) && Shows(chs[c], w)
    requires timeds.Valid() && timeds.cmp == TimedCmp && limit >= 1
    modifies timeds, timeds.repr, chs[c].mmodes, chs[c].mmodes.repr
    ensures chs[c].mmodes.repr == old(chs[c].mmodes.repr) && Shows(chs[c], Rest(w, now, limit))
    ensures timeds.Valid() && fresh(timeds.repr - old(timeds.repr))
    ensures timeds.Contents() == Queued(w.name, Taken(w, now, limit).batches, old(timeds.Contents()))
    ensures Apart(chs) && forall i :: 0 <= i < |chs| ==> chs[i].mmodes.repr == old(chs[i].mmodes.repr)
    ensures forall i, x :: 0 <= i < |chs| && i != c && old(Shows(chs[i], x)) ==> Shows(chs[i], x)
  {
    FlushChannel(chs[c], timeds, now, limit);
  }
}
