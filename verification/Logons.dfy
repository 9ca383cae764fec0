/** Who is logged on: `addnewauthed`, `cleanautheds`, `logoff`, `logon` and `isvalidlogon` of ds.c. */
module Logons {
  import opened Chars
  import opened Options
  import opened SortedQueue
  import opened Wildcards

  const OER_LOGON_TIMEOUT := 1800

  datatype Session = Session(at: int, handle: string, userhost: string, forced: bool)

  datatype User = User(handle: string, masks: seq<string>)

  // ---------------------------------------------------------------- what the operations do to the list

  predicate SameSession(s: Session, handle: string, userhost: string) {
    SameText(s.handle, handle) && SameText(s.userhost, userhost)
  }

  /** A session that stands in the way of another one for the same handle and host; on a channel with flag `x`
      (`lasting`) sessions do not expire. */
  predicate Blocks(s: Session, handle: string, userhost: string, lasting: bool, now: int) {
    SameSession(s, handle, userhost) && (lasting || now < s.at + OER_LOGON_TIMEOUT)
  }

  predicate Blocked(ss: seq<Session>, handle: string, userhost: string, lasting: bool, now: int) {
    exists i :: 0 <= i < |ss| && Blocks(ss[i], handle, userhost, lasting, now)
  }

  /** `at` is the time of the logon: now, or what the database has. */
  function Added(ss: seq<Session>, at: int, handle: string, userhost: string, lasting: bool, now: int): seq<Session> {
    if Blocked(ss, handle, userhost, lasting, now) then ss else ss + [Session(at, handle, userhost, false)]
  }

  /** A session that cleaning leaves alone. */
  predicate Stays(s: Session, force: bool, lasting: bool, now: int) {
    !force && !s.forced && (lasting || now < s.at + OER_LOGON_TIMEOUT)
  }

  /** The circumstances of a cleaning: `fails` are the sessions, by position, that the database does not delete. */
  datatype Sweep = Sweep(now: int, force: bool, lasting: bool, fails: set<nat>)

  function Cleaned(ss: seq<Session>, i: nat, w: Sweep): seq<Session>
    requires i <= |ss|
    decreases |ss| - i
  {
    if i == |ss| then []
    else (if Stays(ss[i], w.force, w.lasting, w.now) || i in w.fails then [ss[i]] else []) + Cleaned(ss, i + 1, w)
  }

  function LoggedOn(ss: seq<Session>, handle: string, userhost: string, accepted: bool, stored: bool,
                    w: Sweep): seq<Session> {
    if !accepted then ss
    else
      var more := Added(ss, w.now, handle, userhost, w.lasting, w.now);
      if stored && !Blocked(ss, handle, userhost, w.lasting, w.now) then Cleaned(more, 0, w) else more
  }

  function Forced(s: Session, handle: string): Session {
    if SameText(s.handle, handle) then s.(at := 0, forced := true) else s
  }

  /** The first `n` sessions have been looked at. */
  function MarkedUpTo(ss: seq<Session>, handle: string, n: nat): (r: seq<Session>)
    ensures |r| == |ss|
  {
    seq(|ss|, i requires 0 <= i < |ss| => if i < n then Forced(ss[i], handle) else ss[i])
  }

  function Marked(ss: seq<Session>, handle: string): seq<Session> {
    MarkedUpTo(ss, handle, |ss|)
  }

  predicate HasHandleBefore(ss: seq<Session>, handle: string, n: nat)
    requires n <= |ss|
  {
    exists i :: 0 <= i < n && SameText(ss[i].handle, handle)
  }

  predicate HasHandle(ss: seq<Session>, handle: string) {
    HasHandleBefore(ss, handle, |ss|)
  }

  lemma MarkNext(ss: seq<Session>, handle: string, n: nat)
    requires n < |ss|
    ensures MarkedUpTo(ss, handle, n)[n] == ss[n]
    ensures MarkedUpTo(ss, handle, n)[n := Forced(ss[n], handle)] == MarkedUpTo(ss, handle, n + 1)
    ensures HasHandleBefore(ss, handle, n + 1) <==> HasHandleBefore(ss, handle, n) || SameText(ss[n].handle, handle)
  {
    if SameText(ss[n].handle, handle) {
      assert HasHandleBefore(ss, handle, n + 1);
    }
  }

  lemma MarkNone(ss: seq<Session>, handle: string)
    ensures MarkedUpTo(ss, handle, 0) == ss && !HasHandleBefore(ss, handle, 0)
    ensures !HasHandle(ss, handle) ==> Marked(ss, handle) == ss
  {
  }

  function LoggedOff(ss: seq<Session>, handle: string, w: Sweep): seq<Session> {
    if HasHandle(ss, handle) then Cleaned(Marked(ss, handle), 0, w) else ss
  }

  function Find(users: seq<User>, handle: string): Option<User> {
    if users == [] then None
    else if SameText(users[0].handle, handle) then Some(users[0])
    else Find(users[1..], handle)
  }

  ghost predicate Known(u: User, userhost: string) {
    exists k :: 0 <= k < |u.masks| && Commits(u.masks[k], 0, userhost, 0)
  }

  /** A session that is looked at: of this host and not expired, one second longer than cleaning has it. */
  predicate Counts(s: Session, userhost: string, lasting: bool, now: int) {
    (lasting || now <= s.at + OER_LOGON_TIMEOUT) && SameText(s.userhost, userhost)
  }

  ghost predicate ValidLogon(ss: seq<Session>, i: nat, users: seq<User>, userhost: string, lasting: bool, now: int)
    requires i <= |ss|
    decreases |ss| - i
  {
    if i == |ss| then false
    else if !Counts(ss[i], userhost, lasting, now) then ValidLogon(ss, i + 1, users, userhost, lasting, now)
    else match Find(users, ss[i].handle)
      case None => false
      case Some(u) => Known(u, userhost) || ValidLogon(ss, i + 1, users, userhost, lasting, now)
  }

  // ---------------------------------------------------------------- the walk of cleanautheds

  /** `k` sessions of the first `i` have been kept. */
  predicate OnWay(goal: seq<Session>, was: seq<Session>, i: nat, ss: seq<Session>, k: nat, w: Sweep) {
    && i <= |was| && k <= |ss| && ss[k..] == was[i..]
    && goal == ss[..k] + Cleaned(was, i, w)
  }

  lemma Begins(ss: seq<Session>, w: Sweep)
    ensures OnWay(Cleaned(ss, 0, w), ss, 0, ss, 0, w)
  {
    assert ss[0..] == ss && ss[..0] + Cleaned(ss, 0, w) == Cleaned(ss, 0, w);
  }

  lemma KeepOne(goal: seq<Session>, was: seq<Session>, i: nat, ss: seq<Session>, k: nat, w: Sweep)
    requires OnWay(goal, was, i, ss, k, w) && k < |ss|
    ensures i < |was| && ss[k] == was[i]
    ensures Stays(ss[k], w.force, w.lasting, w.now) || i in w.fails ==> OnWay(goal, was, i + 1, ss, k + 1, w)
  {
    assert |ss[k..]| == |was[i..]| && ss[k..][0] == was[i..][0];
    assert ss[k + 1..] == ss[k..][1..] && was[i + 1..] == was[i..][1..];
    assert ss[..k + 1] == ss[..k] + [ss[k]];
    assert ss[..k] + ([was[i]] + Cleaned(was, i + 1, w)) == (ss[..k] + [was[i]]) + Cleaned(was, i + 1, w);
  }

  lemma DropOne(goal: seq<Session>, was: seq<Session>, i: nat, ss: seq<Session>, k: nat, w: Sweep)
    requires OnWay(goal, was, i, ss, k, w) && k < |ss|
    requires !Stays(ss[k], w.force, w.lasting, w.now) && i !in w.fails
    ensures OnWay(goal, was, i + 1, Removed(ss, k), k, w)
  {
    assert |ss[k..]| == |was[i..]| && ss[k..][0] == was[i..][0];
    assert Removed(ss, k)[k..] == ss[k..][1..] && was[i + 1..] == was[i..][1..];
    assert Removed(ss, k)[..k] == ss[..k];
    assert [] + Cleaned(was, i + 1, w) == Cleaned(was, i + 1, w);
  }

  lemma AllSeen(goal: seq<Session>, was: seq<Session>, i: nat, ss: seq<Session>, k: nat, w: Sweep)
    requires OnWay(goal, was, i, ss, k, w) && k == |ss|
    ensures ss == goal
  {
    assert |was[i..]| == |was| - i == 0;
    assert ss[..k] == ss;
  }

  // ---------------------------------------------------------------- the operations

  /** The list of a channel (`autheds`), or of the administrators. */
  class Sessions {
    const list: Queue<Session>

    constructor ()
      ensures Valid() && fresh(list) && list.nodes == [] && list.repr == {}
    {
      list := new Queue<Session>((a, b) => 0);
    }

    ghost predicate Valid()
      reads list, list.repr
    {
      list.Valid() && forall a, b :: list.cmp(a, b) == 0
    }

    ghost function Contents(): seq<Session>
      requires Valid()
      reads list, list.repr
    {
      list.Contents()
    }

    method IsBlocked(handle: string, userhost: string, lasting: bool, now: int) returns (blocked: bool)
      requires Valid()
      ensures blocked <==> Blocked(Contents(), handle, userhost, lasting, now)
    {
      var a := list.first;
      ghost var i, ss := 0, list.Contents();
      list.Head();
      hide Queue.Valid, Queue.Contents;
      while a != null
        invariant 0 <= i <= |list.nodes| && a == At(list.nodes, i)
        invariant forall k :: 0 <= k < i ==> !Blocks(ss[k], handle, userhost, lasting, now)
        decreases |list.nodes| - i
      {
        list.Stands(i);
        if Blocks(a.val, handle, userhost, lasting, now) {
          return true;
        }
        a, i := a.next, i + 1;
      }
      return false;
    }

    method AddNewAuthed(at: int, handle: string, userhost: string, lasting: bool, now: int) returns (added: bool)
      requires Valid()
      modifies list, list.repr
      ensures Valid() && fresh(list.repr - old(list.repr))
      ensures added <==> !Blocked(old(Contents()), handle, userhost, lasting, now)
      ensures Contents() == Added(old(Contents()), at, handle, userhost, lasting, now)
    {
      var blocked := IsBlocked(handle, userhost, lasting, now);
      if blocked {
        return false;
      }
      var s := Session(at, handle, userhost, false);
      NothingAhead(list.cmp, s, list.Contents());
      hide Queue.Valid, Queue.Contents, Inserted;
      var _ := list.Insert(s);
      return true;
    }

    /** The body of the loop of `cleanautheds` for the session at `k`, which was the one at `i` to begin with. */
    method CleanOne(a: Node<Session>, i: nat, w: Sweep, ghost k: nat, ghost was: seq<Session>, ghost goal: seq<Session>)
      returns (gone: bool)
      requires Valid() && k < |list.nodes| && a == list.nodes[k]
      requires OnWay(goal, was, i, list.Contents(), k, w)
      modifies list, list.repr
      ensures Valid() && list.repr == old(list.repr)
      ensures if gone then OnWay(goal, was, i + 1, list.Contents(), k, w) && list.nodes == Removed(old(list.nodes), k)
              else OnWay(goal, was, i + 1, list.Contents(), k + 1, w) && list.nodes == old(list.nodes)
      ensures |list.Contents()| == |old(list.Contents())| - if gone then 1 else 0
    {
      list.Stands(k);
      KeepOne(goal, was, i, list.Contents(), k, w);
      gone := !Stays(a.val, w.force, w.lasting, w.now) && i !in w.fails;
      if gone {
        DropOne(goal, was, i, list.Contents(), k, w);
        hide Queue.Valid, Queue.Contents, OnWay, Cleaned, Stays;
        list.Delete(a, k);
      }
    }

    /** The number of deleted sessions is only counted for a channel. */
    method CleanAutheds(w: Sweep, admins: bool) returns (deleted: int)
      requires Valid()
      modifies list, list.repr
      ensures Valid() && list.repr == old(list.repr)
      ensures Contents() == Cleaned(old(Contents()), 0, w)
      ensures deleted == if admins then 0 else |old(Contents())| - |Contents()|
    {
      var a, i := list.first, 0;
      ghost var was, k := list.Contents(), 0;
      ghost var goal := Cleaned(was, 0, w);
      deleted := 0;
      Begins(was, w);
      list.Head();
      hide Queue.Valid, Queue.Contents, OnWay, Cleaned, Stays;
      while a != null
        invariant Valid() && list.repr == old(list.repr)
        invariant 0 <= k <= |list.nodes| && a == At(list.nodes, k) && i >= 0
        invariant OnWay(goal, was, i, list.Contents(), k, w)
        invariant deleted == if admins then 0 else |was| - |list.Contents()|
        decreases |list.nodes| - k
      {
        list.Stands(k);
        var a2 := a.next;
        var gone := CleanOne(a, i, w, k, was, goal);
        if !gone {
          k := k + 1;
        } else if !admins {
          deleted := deleted + 1;
        }
        a, i := a2, i + 1;
      }
      AllSeen(goal, was, i, list.Contents(), k, w);
    }

    method Force(a: Node<Session>, ghost k: nat)
      requires Valid() && k < |list.nodes| && a == list.nodes[k]
      modifies list.repr
      ensures Valid() && list.repr == old(list.repr) && list.nodes == old(list.nodes) && list.first == old(list.first)
      ensures Contents() == old(Contents())[k := old(Contents())[k].(at := 0, forced := true)]
    {
      a.val := a.val.(at := 0, forced := true);
    }

    method LogOff(handle: string, w: Sweep) returns (done: bool)
      requires Valid() && !w.force
      modifies list, list.repr
      ensures Valid() && list.repr == old(list.repr)
      ensures done <==> HasHandle(old(Contents()), handle)
      ensures Contents() == LoggedOff(old(Contents()), handle, w)
    {
      var a, logoffs := list.first, 0;
      ghost var i, was := 0, list.Contents();
      list.Head();
      MarkNone(was, handle);
      hide Queue.Valid, Queue.Contents, Cleaned, MarkedUpTo, HasHandleBefore, SameText;
      while a != null
        invariant Valid() && list.repr == old(list.repr) && list.nodes == old(list.nodes)
        invariant 0 <= i <= |list.nodes| == |was| && a == At(list.nodes, i)
        invariant list.Contents() == MarkedUpTo(was, handle, i)
        invariant 0 <= logoffs && (logoffs > 0 <==> HasHandleBefore(was, handle, i))
        decreases |list.nodes| - i
      {
        list.Stands(i);
        MarkNext(was, handle, i);
        if SameText(a.val.handle, handle) {
          logoffs := logoffs + 1;
          Force(a, i);
          list.Stands(i);
        }
        a, i := a.next, i + 1;
      }
      if logoffs > 0 {
        var _ := CleanAutheds(w, true);
        return true;
      }
      return false;
    }

    /** `accepted`: the password is right, or an administrator asks; `stored`: the database takes the new row, or
        the bot does not write to it. */
    method LogOn(handle: string, userhost: string, accepted: bool, stored: bool, w: Sweep) returns (done: bool)
      requires Valid() && !w.force
      modifies list, list.repr
      ensures Valid() && fresh(list.repr - old(list.repr))
      ensures Contents() == LoggedOn(old(Contents()), handle, userhost, accepted, stored, w)
      ensures done <==> accepted && stored && !Blocked(old(Contents()), handle, userhost, w.lasting, w.now)
    {
      if !accepted {
        return false;
      }
      var added := AddNewAuthed(w.now, handle, userhost, w.lasting, w.now);
      if !added {
        return false;
      }
      if !stored {
        return false;
      }
      var _ := CleanAutheds(w, true);
      return true;
    }

    method IsValidLogon(users: seq<User>, userhost: string, lasting: bool, now: int) returns (ok: bool)
      requires Valid()
      ensures ok <==> ValidLogon(Contents(), 0, users, userhost, lasting, now)
    {
      var a := list.first;
      ghost var i, ss := 0, list.Contents();
      list.Head();
      hide Queue.Valid, Queue.Contents, Commits;
      while a != null
        invariant 0 <= i <= |list.nodes| && a == At(list.nodes, i)
        invariant ValidLogon(ss, 0, users, userhost, lasting, now) == ValidLogon(ss, i, users, userhost, lasting, now)
        decreases |list.nodes| - i
      {
        list.Stands(i);
        if Counts(a.val, userhost, lasting, now) {
          var user := FindUser(users, a.val.handle);
          if user.None? {
            return false;
          }
          var known := HasMask(user.value, userhost);
          if known {
            return true;
          }
        }
        a, i := a.next, i + 1;
      }
      return false;
    }
  }

  /** Where nothing is ahead of anything, insertion goes to the end. */
  lemma NothingAhead(cmp: Comparison<Session>, s: Session, ss: seq<Session>)
    requires forall a, b :: cmp(a, b) == 0
    ensures Inserted(cmp, s, ss) == ss + [s]
  {
    var k := InsertAt(cmp, s, ss, 0);
    assert k == |ss|;
    assert ss[..k] == ss;
  }

  method FindUser(users: seq<User>, handle: string) returns (u: Option<User>)
    ensures u == Find(users, handle)
  {
    var i := 0;
    assert users[0..] == users;
    while i < |users|
      invariant 0 <= i <= |users| && Find(users, handle) == Find(users[i..], handle)
    {
      if SameText(users[i].handle, handle) {
        return Some(users[i]);
      }
      i := i + 1;
    }
    return None;
  }

  method HasMask(u: User, userhost: string) returns (b: bool)
    ensures b <==> Known(u, userhost)
  {
    for k := 0 to |u.masks|
      invariant forall j :: 0 <= j < k ==> !Commits(u.masks[j], 0, userhost, 0)
    {
      var r := WildMatch(u.masks[k], userhost);
      if r != 0 {
        return true;
      }
    }
    return false;
  }
}
