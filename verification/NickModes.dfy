/** What becomes of waiting modes when a user leaves or changes nick: `initmmodesfornick` and
    `changemmodesfornick` of ds.c. */
module NickModes {
  import opened Chars
  import opened Options
  import opened SortedQueue
  import opened Batching

  /** Both walks compare every target with the nick; the first mode without a target makes them dereference NULL. */
  predicate Targeted(ms: seq<Mmode>) {
    forall m :: m in ms ==> m.target.Some?
  }

  predicate IsFor(m: Mmode, nick: string) {
    m.target.Some? && SameText(m.target.value, nick)
  }

  function Without(ms: seq<Mmode>, nick: string): seq<Mmode> {
    if ms == [] then [] else (if IsFor(ms[0], nick) then [] else [ms[0]]) + Without(ms[1..], nick)
  }

  function RenamedOne(m: Mmode, nick: string, to: string): Mmode {
    if IsFor(m, nick) then m.(target := Some(to)) else m
  }

  /** The first `n` modes have been looked at. */
  function RenamedUpTo(ms: seq<Mmode>, nick: string, to: string, n: nat): (r: seq<Mmode>)
    ensures |r| == |ms| && forall i :: 0 <= i < |ms| ==> r[i] == if i < n then RenamedOne(ms[i], nick, to) else ms[i]
  {
    seq(|ms|, i requires 0 <= i < |ms| => if i < n then RenamedOne(ms[i], nick, to) else ms[i])
  }

  function Renamed(ms: seq<Mmode>, nick: string, to: string): (r: seq<Mmode>)
    ensures |r| == |ms| && forall i :: 0 <= i < |ms| ==> r[i] == RenamedOne(ms[i], nick, to)
  {
    RenamedUpTo(ms, nick, to, |ms|)
  }

  // ---------------------------------------------------------------- the walks

  /** `k` modes are kept so far; the rest of the queue still has to yield what is to be left, and it is what the walk
      can still founder on. */
  predicate OnWay(was: seq<Mmode>, ms: seq<Mmode>, k: nat, nick: string) {
    k <= |ms| && (Targeted(was) <==> Targeted(ms[k..])) && Without(was, nick) == ms[..k] + Without(ms[k..], nick)
  }

  lemma WithoutFirst(m: Mmode, ms: seq<Mmode>, nick: string)
    ensures Without([m] + ms, nick) == if IsFor(m, nick) then Without(ms, nick) else [m] + Without(ms, nick)
  {
    assert ([m] + ms)[1..] == ms;
  }

  lemma TargetedFirst(m: Mmode, ms: seq<Mmode>)
    ensures Targeted([m] + ms) <==> m.target.Some? && Targeted(ms)
  {
    assert m in [m] + ms && forall x :: x in [m] + ms <==> x == m || x in ms;
  }

  lemma PartsAt(ms: seq<Mmode>, k: nat)
    requires k < |ms|
    ensures ms[k..] == [ms[k]] + ms[k + 1..] && ms[..k + 1] == ms[..k] + [ms[k]]
    ensures Removed(ms, k)[..k] == ms[..k] && Removed(ms, k)[k..] == ms[k + 1..]
  {
  }

  lemma Regrouped(a: seq<Mmode>, m: Mmode, b: seq<Mmode>)
    ensures a + ([m] + b) == a + [m] + b
  {
  }

  lemma WalkOn(was: seq<Mmode>, ms: seq<Mmode>, k: nat, nick: string)
    requires OnWay(was, ms, k, nick) && k < |ms|
    ensures ms[k].target.None? ==> !Targeted(was)
    ensures ms[k].target.Some? ==>
      if IsFor(ms[k], nick) then OnWay(was, Removed(ms, k), k, nick) else OnWay(was, ms, k + 1, nick)
  {
    var m, rest := ms[k], ms[k + 1..];
    PartsAt(ms, k);
    WithoutFirst(m, rest, nick);
    TargetedFirst(m, rest);
    Regrouped(ms[..k], m, Without(rest, nick));
    hide SameText, Without, Targeted, Removed;
  }

  lemma WalkBegins(ms: seq<Mmode>, nick: string)
    ensures OnWay(ms, ms, 0, nick)
  {
    assert ms[0..] == ms && ms[..0] + Without(ms, nick) == Without(ms, nick);
  }

  lemma WalkEnds(was: seq<Mmode>, ms: seq<Mmode>, k: nat, nick: string)
    requires OnWay(was, ms, k, nick) && k == |ms|
    ensures ms == Without(was, nick) && Targeted(was)
  {
    assert ms[k..] == [] && ms[..k] == ms;
  }

  /** Not `ok`: the bot is gone. */
  method InitMmodesForNick(ch: ModeQueue, nick: string) returns (ok: bool)
    requires ch.Valid()
    modifies ch.mmodes, ch.mmodes.repr
    ensures ok <==> Targeted(old(ch.mmodes.Contents()))
    ensures ok ==> ch.Valid() && ch.mmodes.repr == old(ch.mmodes.repr)
    ensures ok ==> ch.mmodes.Contents() == Without(old(ch.mmodes.Contents()), nick)
  {
    var m1 := ch.mmodes.first;
    ghost var k, ms := 0, ch.mmodes.Contents();
    ghost var was := ms;
    WalkBegins(ms, nick);
    ch.mmodes.Head();
    hide Queue.Valid, Queue.Contents, OnWay, Without, SameText, Targeted;
    while m1 != null
      invariant ch.mmodes.Valid() && ch.mmodes.repr == old(ch.mmodes.repr)
      invariant 0 <= k <= |ch.mmodes.nodes| && m1 == At(ch.mmodes.nodes, k)
      invariant ms == ch.mmodes.Contents() && OnWay(was, ms, k, nick)
      decreases |ch.mmodes.nodes| - k
    {
      ch.mmodes.Stands(k);
      WalkOn(was, ms, k, nick);
      if m1.val.target.None? {
        return false;
      }
      var m2 := m1.next;
      if IsFor(m1.val, nick) {
        ch.mmodes.Delete(m1, k);
        ms := Removed(ms, k);
      } else {
        k := k + 1;
      }
      m1 := m2;
    }
    WalkEnds(was, ms, k, nick);
    return true;
  }

  method Retarget(ch: ModeQueue, m: Node<Mmode>, to: string, ghost k: nat)
    requires ch.Valid() && k < |ch.mmodes.nodes| && m == ch.mmodes.nodes[k]
    modifies ch.mmodes.repr
    ensures ch.Valid() && ch.mmodes.nodes == old(ch.mmodes.nodes)
    ensures ch.mmodes.Contents() == old(ch.mmodes.Contents())[k := old(ch.mmodes.Contents())[k].(target := Some(to))]
  {
    m.val := m.val.(target := Some(to));
  }

  method ChangeMmodesForNick(ch: ModeQueue, nick: string, to: string) returns (ok: bool)
    requires ch.Valid()
    modifies ch.mmodes.repr
    ensures ok <==> Targeted(old(ch.mmodes.Contents()))
    ensures ok ==> ch.Valid() && ch.mmodes.nodes == old(ch.mmodes.nodes)
    ensures ok ==> ch.mmodes.Contents() == Renamed(old(ch.mmodes.Contents()), nick, to)
  {
    var m := ch.mmodes.first;
    ghost var i, ms := 0, ch.mmodes.Contents();
    ch.mmodes.Head();
    assert RenamedUpTo(ms, nick, to, 0) == ms;
    hide Queue.Valid, Queue.Contents, SameText;
    while m != null
      invariant ch.mmodes.Valid() && ch.mmodes.nodes == old(ch.mmodes.nodes)
      invariant 0 <= i <= |ch.mmodes.nodes| == |ms| && m == At(ch.mmodes.nodes, i)
      invariant ch.mmodes.Contents() == RenamedUpTo(ms, nick, to, i)
      invariant forall j :: 0 <= j < i ==> ms[j].target.Some?
      decreases |ch.mmodes.nodes| - i
    {
      ch.mmodes.Stands(i);
      assert ms[i] in ms && m.val == ms[i];
      if m.val.target.None? {
        return false;
      }
      if IsFor(m.val, nick) {
        Retarget(ch, m, to, i);
        ch.mmodes.Stands(i);
      }
      m, i := m.next, i + 1;
    }
    return true;
  }

  // ---------------------------------------------------------------- what they mean

  /** Forgetting a nick leaves exactly the modes for others, in order; letter case does not tell nicks apart. */
  lemma {:induction false} WithoutLeaves(ms: seq<Mmode>, nick: string)
    requires Sorted(MmodeCmp, ms)
    ensures var r := Without(ms, nick);
      && Sorted(MmodeCmp, r)
      && forall m :: m in r <==> m in ms && (m.target.Some? ==> !SameText(m.target.value, nick))
  {
    if ms != [] {
      WithoutLeaves(ms[1..], nick);
      assert ms == [ms[0]] + ms[1..];
      var rest := Without(ms[1..], nick);
      forall j | 0 <= j < |rest| ensures MmodeCmp(ms[0], rest[j]) != -1 {
        assert rest[j] in ms[1..];
        var i :| 0 <= i < |ms[1..]| && ms[1..][i] == rest[j];
        assert MmodeCmp(ms[0], ms[i + 1]) != -1;
      }
    }
  }

  /** Renaming moves no mode, and rewrites the targets that are the nick, letter case aside. */
  lemma {:induction false} RenamedSorted(ms: seq<Mmode>, nick: string, to: string)
    requires Sorted(MmodeCmp, ms)
    ensures Sorted(MmodeCmp, Renamed(ms, nick, to))
    ensures forall i :: 0 <= i < |ms| ==>
      Renamed(ms, nick, to)[i] ==
        if ms[i].target.Some? && SameText(ms[i].target.value, nick) then ms[i].(target := Some(to)) else ms[i]
    ensures Targeted(ms) ==> Targeted(Renamed(ms, nick, to))
  {
    var r := Renamed(ms, nick, to);
    forall i, j | 0 <= i < j < |r| ensures MmodeCmp(r[i], r[j]) != -1 {
      assert MmodeCmp(ms[i], ms[j]) != -1;
    }
  }

  lemma RenamedTail(ms: seq<Mmode>, nick: string, to: string)
    requires ms != []
    ensures Renamed(ms, nick, to) == [RenamedOne(ms[0], nick, to)] + Renamed(ms[1..], nick, to)
  {
  }

  /** Who changes nick and then leaves takes all of the waiting modes along: those under the new nick and those
      under the old one. */
  lemma {:induction false} RenameThenLeave(ms: seq<Mmode>, nick: string, to: string)
    ensures Without(Renamed(ms, nick, to), to) == Without(Without(ms, nick), to)
  {
    if ms != [] {
      var m, r, rest := ms[0], Renamed(ms[1..], nick, to), Without(ms[1..], nick);
      RenameThenLeave(ms[1..], nick, to);
      RenamedTail(ms, nick, to);
      WithoutFirst(RenamedOne(m, nick, to), r, to);
      WithoutFirst(m, ms[1..], nick);
      WithoutFirst(m, rest, to);
      assert [m] + ms[1..] == ms;
      assert IsFor(m, nick) ==> IsFor(RenamedOne(m, nick, to), to);
      hide Renamed, Without;
    }
  }
}
