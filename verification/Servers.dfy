/** Which server the bot connects to: `getserver` of ds.c and its call in network.c. */
module Servers {
  import opened Chars

  const OER_SERVER_IS_STONED_FOR := 300

  // ---------------------------------------------------------------- the choice

  /** `stoned` is the time since when a server is known not to answer, 0 for never. */
  datatype Entry = Entry(host: string, stoned: int, used: bool)

  /** The servers, the position of the current one, -1 for none, and the administrator's wish. */
  datatype State = State(servers: seq<Entry>, current: int, preferred: string)

  predicate Good(st: State) {
    -1 <= st.current < |st.servers|
  }

  predicate Eligible(e: Entry, now: int) {
    e.stoned == 0 || now >= e.stoned + OER_SERVER_IS_STONED_FOR
  }

  predicate Free(e: Entry, now: int) {
    !e.used && Eligible(e, now)
  }

  /** The first server from `i` on that may be taken. */
  function Search(es: seq<Entry>, i: nat, now: int): (j: nat)
    requires i <= |es|
    ensures i <= j <= |es|
    ensures j < |es| ==> Free(es[j], now)
    ensures forall k {:trigger Free(es[k], now)} :: i <= k < j ==> !Free(es[k], now)
    decreases |es| - i
  {
    if i == |es| || Free(es[i], now) then i else Search(es, i + 1, now)
  }

  function Wished(es: seq<Entry>, host: string, i: nat): (j: nat)
    requires i <= |es|
    ensures i <= j <= |es|
    ensures j < |es| ==> SameText(es[j].host, host)
    ensures forall k :: i <= k < j ==> !SameText(es[k].host, host)
    decreases |es| - i
  {
    if i == |es| || SameText(es[i].host, host) then i else Wished(es, host, i + 1)
  }

  /** The scan starts behind the current server, or at the top. */
  function Start(st: State): nat
    requires Good(st)
  {
    if st.current >= 0 && st.current + 1 < |st.servers| then st.current + 1 else 0
  }

  function Reset(es: seq<Entry>): (r: seq<Entry>)
    ensures |r| == |es|
  {
    seq(|es|, i requires 0 <= i < |es| => es[i].(used := false))
  }

  /** What `getserver` returns, -1 for none, and what it leaves behind. */
  datatype Choice = Choice(index: int, servers: seq<Entry>, preferred: string)

  function Choose(st: State, now: int): (c: Choice)
    requires Good(st)
    ensures -1 <= c.index < |c.servers| == |st.servers|
  {
    var wish := if st.preferred == "" then |st.servers| else Wished(st.servers, st.preferred, 0);
    if wish < |st.servers| then Choice(wish, st.servers, "") else Scan(st, now)
  }

  /** The choice without a wish. */
  function Scan(st: State, now: int): (c: Choice)
    requires Good(st)
    ensures -1 <= c.index < |c.servers| == |st.servers|
  {
    var j := Search(st.servers, Start(st), now);
    if j < |st.servers| then Choice(j, st.servers[j := st.servers[j].(stoned := 0)], st.preferred)
    else Choice(-1, Reset(st.servers), st.preferred)
  }

  /** After an attempt to connect: the chosen server is the current one and is marked as used. */
  function Connected(st: State, now: int): (r: State)
    requires Good(st)
    ensures Good(r) && |r.servers| == |st.servers|
  {
    var c := Choose(st, now);
    var es := c.servers;
    State(if c.index < 0 then es else es[c.index := es[c.index].(used := true)], c.index, c.preferred)
  }

  // ---------------------------------------------------------------- the list

  class Server {
    const host: string
    var stoned: int
    var used: bool
    var next: Server?

    constructor (host: string)
      ensures this.host == host && stoned == 0 && !used && next == null
    {
      this.host := host;
      stoned, used, next := 0, false, null;
    }
  }

  function At(nodes: seq<Server>, i: int): Server? {
    if 0 <= i < |nodes| then nodes[i] else null
  }

  class Rotation {
    var servers: Server?
    var current: Server?
    var preferred: string
    ghost var nodes: seq<Server>
    ghost var position: int

    ghost predicate Valid()
      reads this, nodes
    {
      && servers == At(nodes, 0) && current == At(nodes, position) && -1 <= position < |nodes|
      && (forall i {:trigger nodes[i].next} :: 0 <= i < |nodes| ==> nodes[i].next == At(nodes, i + 1))
      && (forall i, j :: 0 <= i < j < |nodes| ==> nodes[i] != nodes[j])
    }

    ghost function Entries(): (es: seq<Entry>)
      reads this, nodes
      ensures |es| == |nodes|
    {
      seq(|nodes|, i requires 0 <= i < |nodes| reads this, nodes =>
        Entry(nodes[i].host, nodes[i].stoned, nodes[i].used))
    }

    ghost function View(): State
      reads this, nodes
    {
      State(Entries(), position, preferred)
    }

    lemma Linked(i: nat)
      requires Valid() && i < |nodes|
      ensures nodes[i].next == At(nodes, i + 1)
      ensures Entries()[i] == Entry(nodes[i].host, nodes[i].stoned, nodes[i].used)
    {
    }

    method FindWished() returns (s: Server?, ghost i: nat)
      requires Valid()
      ensures i == Wished(Entries(), preferred, 0) && s == At(nodes, i)
    {
      s, i := servers, 0;
      hide Valid, Entries;
      assert s == At(nodes, 0) by {
        Top();
      }
      while s != null
        invariant 0 <= i <= |nodes| && s == At(nodes, i)
        invariant Wished(Entries(), preferred, 0) == Wished(Entries(), preferred, i)
        decreases |nodes| - i
      {
        Linked(i);
        if SameText(s.host, preferred) {
          return;
        }
        s, i := s.next, i + 1;
      }
    }

    lemma Top()
      requires Valid()
      ensures servers == At(nodes, 0)
    {
    }

    method FindFree(from: Server?, ghost start: nat, now: int) returns (s: Server?, ghost i: nat)
      requires Valid() && start <= |nodes| && from == At(nodes, start)
      ensures i == Search(Entries(), start, now) && s == At(nodes, i)
    {
      s, i := from, start;
      hide Valid, Entries;
      while s != null
        invariant start <= i <= |nodes| && s == At(nodes, i)
        invariant Search(Entries(), start, now) == Search(Entries(), i, now)
        decreases |nodes| - i
      {
        Linked(i);
        if !s.used {
          if s.stoned == 0 || now >= s.stoned + OER_SERVER_IS_STONED_FOR {
            return;
          }
        }
        s, i := s.next, i + 1;
      }
    }

    /** Forget which servers were used. */
    method ResetUsed()
      requires Valid()
      modifies nodes
      ensures Valid() && Entries() == Reset(old(Entries()))
    {
      var s := servers;
      ghost var i := 0;
      while s != null
        invariant Valid() && 0 <= i <= |nodes| && s == At(nodes, i)
        invariant forall k {:trigger nodes[k]} :: 0 <= k < |nodes| ==>
          nodes[k].stoned == old(nodes[k].stoned) && nodes[k].used == (k >= i && old(nodes[k].used))
        decreases |nodes| - i
      {
        s.used := false;
        s, i := s.next, i + 1;
      }
    }

    method Unstone(s: Server, ghost i: nat)
      requires Valid() && i < |nodes| && s == nodes[i]
      modifies s`stoned
      ensures Valid() && Entries() == old(Entries())[i := old(Entries())[i].(stoned := 0)]
    {
      s.stoned := 0;
    }

    /** The part of `getserver` behind the administrator's wish. */
    method NextServer(now: int) returns (s: Server?, ghost index: int)
      requires Valid()
      modifies nodes
      ensures Valid()
      ensures var c := Scan(old(View()), now);
        index == c.index && s == At(nodes, index) && Entries() == c.servers
    {
      ghost var i;
      ghost var start := Start(View());
      Top();
      if current != null && current.next != null {
        s := current.next;
      } else {
        s := servers;
      }
      assert s == At(nodes, start);
      hide Valid, Entries;
      s, i := FindFree(s, start, now);
      if s != null {
        Unstone(s, i);
        return s, i;
      }
      ResetUsed();
      return null, -1;
    }

    /** `getserver`; `index` is where the server stands. */
    method GetServer(now: int) returns (s: Server?, ghost index: int)
      requires Valid()
      modifies this`preferred, nodes
      ensures Valid()
      ensures var c := Choose(old(View()), now);
        index == c.index && s == At(nodes, index) && Entries() == c.servers && preferred == c.preferred
    {
      if preferred != "" {
        s, index := FindWished();
        if s != null {
          preferred := "";
          return;
        }
      }
      hide Scan;
      s, index := NextServer(now);
    }

    /** The part of `serverconnection` that chooses the server. */
    method Connect(now: int) returns (found: bool)
      requires Valid()
      modifies this`current, this`position, this`preferred, nodes
      ensures Valid() && View() == Connected(old(View()), now)
      ensures found <==> current != null
    {
      current, position := GetServer(now);
      if current == null {
        return false;
      }
      current.used := true;
      return true;
    }
  }

  // ---------------------------------------------------------------- runs

  /** What happens before an attempt, and when it is: the current server may be found not to answer, and the
      connection to it may be given up. */
  datatype Attempt = Attempt(now: int, stoned: bool, dropped: bool)

  function Before(st: State, a: Attempt): (r: State)
    requires Good(st)
    ensures Good(r) && |r.servers| == |st.servers|
  {
    var es := st.servers;
    var i := st.current;
    State(if a.stoned && i >= 0 then es[i := es[i].(stoned := a.now)] else es,
          if a.dropped then -1 else i, st.preferred)
  }

  function Tried(st: State, a: Attempt): (r: State)
    requires Good(st)
    ensures Good(r) && |r.servers| == |st.servers|
  {
    Connected(Before(st, a), a.now)
  }

  function After(st: State, run: seq<Attempt>): (r: State)
    requires Good(st)
    ensures Good(r) && |r.servers| == |st.servers|
    decreases run
  {
    if run == [] then st else After(Tried(st, run[0]), run[1..])
  }

  /** The positions of the servers that are tried, -1 where none is found. */
  function Results(st: State, run: seq<Attempt>): (r: seq<int>)
    requires Good(st)
    ensures |r| == |run|
    decreases run
  {
    if run == [] then [] else [Tried(st, run[0]).current] + Results(Tried(st, run[0]), run[1..])
  }

  lemma FirstResult(st: State, run: seq<Attempt>)
    requires Good(st) && run != []
    ensures Results(st, run) == [Tried(st, run[0]).current] + Results(Tried(st, run[0]), run[1..])
    ensures After(st, run) == After(Tried(st, run[0]), run[1..])
    ensures |run| == 1 ==> Results(st, run) == [Tried(st, run[0]).current] && After(st, run) == Tried(st, run[0])
  {
  }

  /** One attempt without a wish: what it finds was not used, and then is; nothing else changes that matters. */
  lemma OneAttempt(st: State, a: Attempt)
    requires Good(st) && st.preferred == ""
    ensures var r := Tried(st, a);
      && r.preferred == ""
      && (r.current >= 0 ==> !st.servers[r.current].used && r.servers[r.current].used)
      && (r.current >= 0 ==>
            forall k :: 0 <= k < |st.servers| && k != r.current ==> r.servers[k].used == st.servers[k].used)
      && (r.current < 0 ==> forall k :: 0 <= k < |st.servers| ==> !r.servers[k].used)
  {
  }

  /** Different servers, none of them used before. */
  predicate FirstTimes(es: seq<Entry>, r: seq<int>) {
    && (forall k :: 0 <= k < |r| ==> 0 <= r[k] < |es| && !es[r[k]].used)
    && (forall j, k :: 0 <= j < k < |r| ==> r[j] != r[k])
  }

  lemma OneMoreTime(es: seq<Entry>, later: seq<Entry>, x: int, rest: seq<int>)
    requires |later| == |es| && 0 <= x < |es| && !es[x].used && later[x].used
    requires forall k :: 0 <= k < |es| && k != x ==> later[k].used == es[k].used
    requires FirstTimes(later, rest)
    ensures FirstTimes(es, [x] + rest)
  {
    var r := [x] + rest;
    forall k | 0 <= k < |r| ensures 0 <= r[k] < |es| && !es[r[k]].used && (k > 0 ==> r[k] != x) {
      assert k > 0 ==> r[k] == rest[k - 1] && !later[rest[k - 1]].used;
    }
  }

  /** Over every run, whatever the clock does and whatever becomes of the connections: until an attempt finds no
      server, no server is tried twice. */
  lemma {:induction false} NoneTwice(st: State, run: seq<Attempt>)
    requires Good(st) && st.preferred == "" && -1 !in Results(st, run)
    ensures FirstTimes(st.servers, Results(st, run))
    decreases run
  {
    if run != [] {
      var next, rest := Tried(st, run[0]), Results(Tried(st, run[0]), run[1..]);
      var r := [next.current] + rest;
      assert Results(st, run) == r && r[0] == next.current && r[1..] == rest;
      assert forall x :: x in rest ==> x in r;
      OneAttempt(st, run[0]);
      hide Tried, FirstTimes, Results;
      NoneTwice(next, run[1..]);
      OneMoreTime(st.servers, next.servers, next.current, rest);
    }
  }

  /** Server `i` is still to come: not used, answering as far as is known, and the current one stands ahead of it. */
  predicate ToCome(st: State, i: nat) {
    Good(st) && st.preferred == "" && st.current < i < |st.servers| && !st.servers[i].used && st.servers[i].stoned == 0
  }

  lemma StillToCome(st: State, a: Attempt, i: nat)
    requires ToCome(st, i)
    ensures Tried(st, a).current == i || (Tried(st, a).current >= 0 && ToCome(Tried(st, a), i))
  {
    var b := Before(st, a);
    assert b.servers[i] == st.servers[i] && Free(b.servers[i], a.now);
    assert Start(b) <= i;
  }

  /** Over every run: no attempt fails to find a server before every server that answers has been tried. */
  lemma {:induction false} TriedBeforeNone(st: State, run: seq<Attempt>, i: nat, k: nat) returns (j: nat)
    requires Good(st) && ToCome(st, i) && k < |run| && Results(st, run)[k] == -1
    ensures j < k && Results(st, run)[j] == i
    decreases run
  {
    var next, rest := Tried(st, run[0]), Results(Tried(st, run[0]), run[1..]);
    FirstResult(st, run);
    StillToCome(st, run[0], i);
    hide Tried, ToCome, Results, Good;
    if next.current == i {
      j := 0;
    } else {
      j := TriedBeforeNone(next, run[1..], i, k - 1);
      j := j + 1;
    }
  }

  // ---------------------------------------------------------------- a round at a fixed time

  /** The eligible servers from `i` on, in list order. */
  function EligibleFrom(es: seq<Entry>, i: nat, now: int): seq<int>
    requires i <= |es|
    decreases |es| - i
  {
    if i == |es| then [] else (if Eligible(es[i], now) then [i] else []) + EligibleFrom(es, i + 1, now)
  }

  /** The servers ahead of `i` have had their turn, those from `i` on have not. */
  predicate Midway(st: State, i: nat, now: int) {
    && Good(st) && st.preferred == "" && st.current < i <= |st.servers|
    && (forall k {:trigger st.servers[k]} :: 0 <= k < i ==> !Free(st.servers[k], now))
    && (forall k {:trigger st.servers[k]} :: i <= k < |st.servers| ==> !st.servers[k].used)
  }

  /** All attempts are made at the same time, and no server is found not to answer meanwhile. */
  predicate Still(run: seq<Attempt>, now: int) {
    forall k :: 0 <= k < |run| ==> run[k].now == now && !run[k].stoned
  }

  predicate SameEligible(a: seq<Entry>, b: seq<Entry>, now: int) {
    |a| == |b| && forall k :: 0 <= k < |a| ==> (Eligible(a[k], now) <==> Eligible(b[k], now))
  }

  lemma SameTwice(a: seq<Entry>, b: seq<Entry>, c: seq<Entry>, now: int)
    requires SameEligible(a, b, now) && SameEligible(b, c, now)
    ensures SameEligible(a, c, now)
  {
  }

  lemma {:induction false} EligibleSame(a: seq<Entry>, b: seq<Entry>, i: nat, now: int)
    requires SameEligible(a, b, now) && i <= |a|
    ensures EligibleFrom(a, i, now) == EligibleFrom(b, i, now)
    decreases |a| - i
  {
    if i < |a| {
      EligibleSame(a, b, i + 1, now);
    }
  }

  lemma {:induction false} EligibleSearch(es: seq<Entry>, i: nat, now: int)
    requires i <= |es| && forall k :: i <= k < |es| ==> !es[k].used
    ensures var j := Search(es, i, now);
      EligibleFrom(es, i, now) == if j == |es| then [] else [j] + EligibleFrom(es, j + 1, now)
    decreases |es| - i
  {
    if i < |es| {
      assert Free(es[i], now) <==> Eligible(es[i], now);
      hide Free, Eligible;
      if !Free(es[i], now) {
        EligibleSearch(es, i + 1, now);
        assert [] + EligibleFrom(es, i + 1, now) == EligibleFrom(es, i + 1, now);
      }
    }
  }

  /** An attempt finds the next eligible server; when there is none left, everything is as at the beginning. */
  lemma NextTurn(st: State, i: nat, a: Attempt)
    requires Midway(st, i, a.now) && !a.stoned
    ensures var r, j := Tried(st, a), Search(st.servers, i, a.now);
      && SameEligible(st.servers, r.servers, a.now)
      && (j < |st.servers| ==> r.current == j && Midway(r, j + 1, a.now))
      && (j == |st.servers| ==> r.current == -1 && Midway(r, 0, a.now))
  {
    var b := Before(st, a);
    var start, j := Start(b), Search(st.servers, i, a.now);
    assert b.servers == st.servers;
    assert Search(b.servers, start, a.now) == j by {
      SearchSkips(st.servers, start, i, a.now);
    }
  }

  lemma {:induction false} SearchSkips(es: seq<Entry>, start: nat, i: nat, now: int)
    requires start <= |es| && i <= |es|
    requires forall k {:trigger es[k]} :: 0 <= k < i ==> !Free(es[k], now)
    requires start <= i || (start == 0)
    ensures Search(es, start, now) == Search(es, i, now)
    decreases |es| - start
  {
    if start < i {
      SearchSkips(es, start + 1, i, now);
    }
  }

  /** What a round from `i` on finds and leaves. */
  predicate RoundDone(st: State, i: nat, run: seq<Attempt>, now: int)
    requires Good(st) && i <= |st.servers|
  {
    && Results(st, run) == EligibleFrom(st.servers, i, now) + [-1]
    && Midway(After(st, run), 0, now) && SameEligible(st.servers, After(st, run).servers, now)
  }

  lemma {:induction false} RoundFrom(st: State, i: nat, run: seq<Attempt>, now: int)
    requires Midway(st, i, now) && Still(run, now) && |run| == |EligibleFrom(st.servers, i, now)| + 1
    ensures RoundDone(st, i, run, now)
    decreases run
  {
    hide Tried, Before, Midway, Search, Free, Eligible, EligibleFrom, Results, After, Good, Still, RoundDone;
    hide SameEligible;
    AtRest(st, i, run, now);
    var next, j := Tried(st, run[0]), Search(st.servers, i, now);
    NextTurn(st, i, run[0]);
    EligibleSearch(st.servers, i, now);
    FirstResult(st, run);
    if j < |st.servers| {
      EligibleSame(st.servers, next.servers, j + 1, now);
      RoundFrom(next, j + 1, run[1..], now);
      RoundGoesOn(st, i, run, now, next, j);
    } else {
      RoundEnds(st, i, run, now, next);
    }
  }

  lemma RoundEnds(st: State, i: nat, run: seq<Attempt>, now: int, next: State)
    requires Good(st) && Good(next) && i <= |st.servers| == |next.servers|
    requires Results(st, run) == [-1] && After(st, run) == next && EligibleFrom(st.servers, i, now) == []
    requires Midway(next, 0, now) && SameEligible(st.servers, next.servers, now)
    ensures RoundDone(st, i, run, now)
  {
    hide EligibleFrom, Results, After, SameEligible, Midway, Good;
  }

  lemma AtRest(st: State, i: nat, run: seq<Attempt>, now: int)
    requires Midway(st, i, now) && Still(run, now) && run != []
    ensures Good(st) && i <= |st.servers| && !run[0].stoned && run[0].now == now && Still(run[1..], now)
    ensures forall k :: i <= k < |st.servers| ==> !st.servers[k].used
  {
  }

  lemma RoundGoesOn(st: State, i: nat, run: seq<Attempt>, now: int, next: State, j: nat)
    requires Good(st) && Good(next) && i <= |st.servers| && j < |st.servers| == |next.servers| && run != []
    requires Results(st, run) == [j] + Results(next, run[1..]) && After(st, run) == After(next, run[1..])
    requires EligibleFrom(st.servers, i, now) == [j] + EligibleFrom(next.servers, j + 1, now)
    requires SameEligible(st.servers, next.servers, now) && RoundDone(next, j + 1, run[1..], now)
    ensures RoundDone(st, i, run, now)
  {
    SameTwice(st.servers, next.servers, After(next, run[1..]).servers, now);
    hide EligibleFrom, Results, After, SameEligible, Midway, Good;
  }

  /** Between two attempts that find no server, at a fixed time, every eligible server is tried exactly once and
      in list order, whether or not the connections were given up in between; and then it starts all over. */
  lemma {:induction false} Round(st: State, run: seq<Attempt>, now: int)
    requires Midway(st, 0, now) && Still(run, now) && |run| == |EligibleFrom(st.servers, 0, now)| + 1
    ensures Results(st, run) == EligibleFrom(st.servers, 0, now) + [-1]
    ensures Midway(After(st, run), 0, now)
    ensures EligibleFrom(After(st, run).servers, 0, now) == EligibleFrom(st.servers, 0, now)
  {
    RoundFrom(st, 0, run, now);
    EligibleSame(st.servers, After(st, run).servers, 0, now);
  }

  // ---------------------------------------------------------------- wishes, and servers that do not answer

  /** The administrator's wish is granted once: the first server of that name is taken, whatever is known of it, and
      the wish is gone; a wish for a server that is not listed stays. */
  lemma {:induction false} WishGranted(st: State, a: Attempt)
    requires Good(st) && st.preferred != ""
    ensures var r := Tried(st, a);
      if exists i :: 0 <= i < |st.servers| && SameText(st.servers[i].host, st.preferred) then
        && r.current >= 0 && SameText(st.servers[r.current].host, st.preferred) && r.preferred == ""
        && r.servers[r.current].used
        && forall j :: 0 <= j < r.current ==> !SameText(st.servers[j].host, st.preferred)
      else r.preferred == st.preferred
  {
    var b := Before(st, a);
    assert forall i :: 0 <= i < |st.servers| ==> b.servers[i].host == st.servers[i].host;
    var wish := Wished(b.servers, st.preferred, 0);
    hide SameText, Scan;
  }

  /** A server that did not answer is left alone for five minutes, and counts as answering once it is taken again. */
  lemma {:induction false} StonedSitsOut(st: State, a: Attempt, i: nat)
    requires Good(st) && st.preferred == "" && i < |st.servers| && !(a.stoned && st.current == i)
    requires 0 < st.servers[i].stoned
    ensures var r := Tried(st, a);
      && (r.current == i ==> a.now >= st.servers[i].stoned + 300 && r.servers[i].stoned == 0)
      && (r.current != i ==> r.servers[i].stoned == st.servers[i].stoned)
  {
  }

  /** And a server that stops answering is marked with the time of that, unless the very same attempt takes it again. */
  lemma {:induction false} StonedNow(st: State, a: Attempt)
    requires Good(st) && st.preferred == "" && st.current >= 0 && a.stoned && a.now > 0
    ensures var r := Tried(st, a); r.current != st.current && r.servers[st.current].stoned == a.now
  {
  }

  /** Without a wish the next server is the first one behind the current one that is neither used nor known not to
      answer, from the top if the current one is the last or given up; and there is none exactly if there is no such
      server. */
  lemma {:induction false} NextInLine(st: State, a: Attempt)
    requires Good(st) && st.preferred == ""
    ensures var r, es := Tried(st, a).current, Before(st, a).servers;
      var from := if a.dropped || st.current < 0 || st.current == |st.servers| - 1 then 0 else st.current + 1;
      && (r >= 0 ==> r >= from && !es[r].used && (es[r].stoned == 0 || a.now >= es[r].stoned + 300))
      && (forall k {:trigger es[k]} :: from <= k < (if r >= 0 then r else |es|) ==>
            es[k].used || (es[k].stoned != 0 && a.now < es[k].stoned + 300))
  {
    var es := Before(st, a).servers;
    var from := Start(Before(st, a));
    assert forall k {:trigger es[k]} :: from <= k < Search(es, from, a.now) ==> !Free(es[k], a.now);
  }
}
