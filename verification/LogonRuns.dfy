/** What logons mean over whole runs. */
module LogonRuns {
  import opened Chars
  import opened Options
  import opened Wildcards
  import opened Logons

  /** `Load` is a session read back from the database. */
  datatype Event =
    | On(handle: string, userhost: string, accepted: bool, stored: bool, w: Sweep)
    | Off(handle: string, w: Sweep)
    | Clean(w: Sweep)
    | Load(at: int, handle: string, userhost: string, w: Sweep)

  function Step(ss: seq<Session>, e: Event): seq<Session> {
    match e
    case On(handle, userhost, accepted, stored, w) => LoggedOn(ss, handle, userhost, accepted, stored, w)
    case Off(handle, w) => LoggedOff(ss, handle, w)
    case Clean(w) => Cleaned(ss, 0, w)
    case Load(at, handle, userhost, w) => Added(ss, at, handle, userhost, w.lasting, w.now)
  }

  function Later(ss: seq<Session>, es: seq<Event>): seq<Session> {
    if es == [] then ss else Step(Later(ss, es[..|es| - 1]), es[|es| - 1])
  }

  /** The sessions after a run. */
  function After(es: seq<Event>): seq<Session> {
    Later([], es)
  }

  lemma {:induction false} LaterConcat(ss: seq<Session>, a: seq<Event>, b: seq<Event>)
    ensures Later(ss, a + b) == Later(Later(ss, a), b)
    decreases |b|
  {
    if b == [] {
      assert a + b == a;
    } else {
      assert (a + b)[..|a + b| - 1] == a + b[..|b| - 1];
      LaterConcat(ss, a, b[..|b| - 1]);
    }
  }

  // ---------------------------------------------------------------- cleaning

  /** Cleaning with a working database keeps exactly what is neither expired nor logged off, in its order. */
  function Fresh(ss: seq<Session>, lasting: bool, now: int): seq<Session> {
    if ss == [] then []
    else
      var s := ss[|ss| - 1];
      Fresh(ss[..|ss| - 1], lasting, now)
        + if !s.forced && (lasting || now < s.at + OER_LOGON_TIMEOUT) then [s] else []
  }

  lemma {:induction false} FreshFront(ss: seq<Session>, lasting: bool, now: int)
    requires ss != []
    ensures var s := ss[0];
      Fresh(ss, lasting, now)
        == (if !s.forced && (lasting || now < s.at + OER_LOGON_TIMEOUT) then [s] else []) + Fresh(ss[1..], lasting, now)
  {
    if |ss| > 1 {
      var front := ss[..|ss| - 1];
      FreshFront(front, lasting, now);
      assert front[1..] == ss[1..][..|ss[1..]| - 1];
    } else {
      assert ss[..0] == ss[1..] == [];
    }
  }

  lemma {:induction false} CleanedIsFresh(ss: seq<Session>, i: nat, w: Sweep)
    requires i <= |ss| && !w.force && w.fails == {}
    ensures Cleaned(ss, i, w) == Fresh(ss[i..], w.lasting, w.now)
    decreases |ss| - i
  {
    if i < |ss| {
      CleanedIsFresh(ss, i + 1, w);
      FreshFront(ss[i..], w.lasting, w.now);
      assert ss[i..][1..] == ss[i + 1..];
    }
  }

  // ---------------------------------------------------------------- where a session stands after cleaning

  predicate Kept(ss: seq<Session>, w: Sweep, k: nat)
    requires k < |ss|
  {
    Stays(ss[k], w.force, w.lasting, w.now) || k in w.fails
  }

  function KeptBefore(ss: seq<Session>, w: Sweep, k: nat): nat
    requires k <= |ss|
  {
    if k == 0 then 0 else KeptBefore(ss, w, k - 1) + if Kept(ss, w, k - 1) then 1 else 0
  }

  lemma {:induction false} CleanedFrom(ss: seq<Session>, w: Sweep, k: nat)
    requires k <= |ss|
    ensures KeptBefore(ss, w, k) <= |Cleaned(ss, 0, w)|
    ensures Cleaned(ss, 0, w)[KeptBefore(ss, w, k)..] == Cleaned(ss, k, w)
  {
    if k > 0 {
      CleanedFrom(ss, w, k - 1);
      var c, n := Cleaned(ss, 0, w), KeptBefore(ss, w, k - 1);
      assert c[n..] == (if Kept(ss, w, k - 1) then [ss[k - 1]] else []) + Cleaned(ss, k, w);
      assert Kept(ss, w, k - 1) ==> c[n + 1..] == c[n..][1..];
    }
  }

  /** A session that is kept stands behind those kept ahead of it. */
  lemma KeptStands(ss: seq<Session>, w: Sweep, k: nat)
    requires k < |ss| && Kept(ss, w, k)
    ensures KeptBefore(ss, w, k) < |Cleaned(ss, 0, w)| && Cleaned(ss, 0, w)[KeptBefore(ss, w, k)] == ss[k]
  {
    CleanedFrom(ss, w, k);
    var c, n := Cleaned(ss, 0, w), KeptBefore(ss, w, k);
    assert c[n..] == [ss[k]] + Cleaned(ss, k + 1, w);
    assert |c[n..]| > 0 && c[n..][0] == c[n];
  }

  /** And every session that is left is one of those. */
  lemma {:induction false} WhoStands(ss: seq<Session>, i: nat, w: Sweep, m: nat) returns (k: nat)
    requires i <= |ss| && m < |Cleaned(ss, i, w)|
    ensures i <= k < |ss| && Kept(ss, w, k) && ss[k] == Cleaned(ss, i, w)[m]
    ensures KeptBefore(ss, w, k) == KeptBefore(ss, w, i) + m
    decreases |ss| - i
  {
    var rest := Cleaned(ss, i + 1, w);
    assert Cleaned(ss, i, w) == (if Kept(ss, w, i) then [ss[i]] else []) + rest;
    if Kept(ss, w, i) && m == 0 {
      k := i;
    } else {
      k := WhoStands(ss, i + 1, w, if Kept(ss, w, i) then m - 1 else m);
    }
  }

  lemma CleanedHas(ss: seq<Session>, w: Sweep, s: Session)
    ensures s in Cleaned(ss, 0, w) ==> s in ss
    ensures s in ss && Stays(s, w.force, w.lasting, w.now) ==> s in Cleaned(ss, 0, w)
  {
    if s in Cleaned(ss, 0, w) {
      var m :| 0 <= m < |Cleaned(ss, 0, w)| && Cleaned(ss, 0, w)[m] == s;
      var k := WhoStands(ss, 0, w, m);
    }
    if s in ss && Stays(s, w.force, w.lasting, w.now) {
      var k :| 0 <= k < |ss| && ss[k] == s;
      KeptStands(ss, w, k);
    }
  }

  // ---------------------------------------------------------------- where a session stands after an event

  /** What an event adds or marks before it cleans. */
  function Subject(ss: seq<Session>, e: Event): (r: seq<Session>)
    ensures |r| >= |ss|
  {
    match e
    case On(handle, userhost, accepted, stored, w) =>
      if accepted then Added(ss, w.now, handle, userhost, w.lasting, w.now) else ss
    case Off(handle, _) => Marked(ss, handle)
    case Clean(_) => ss
    case Load(at, handle, userhost, w) => Added(ss, at, handle, userhost, w.lasting, w.now)
  }

  predicate Cleans(ss: seq<Session>, e: Event) {
    match e
    case On(handle, userhost, accepted, stored, w) =>
      accepted && stored && !Blocked(ss, handle, userhost, w.lasting, w.now)
    case Off(handle, _) => HasHandle(ss, handle)
    case Clean(_) => true
    case Load(_, _, _, _) => false
  }

  lemma StepIs(ss: seq<Session>, e: Event)
    ensures Step(ss, e) == if Cleans(ss, e) then Cleaned(Subject(ss, e), 0, e.w) else Subject(ss, e)
  {
    if e.Off? {
      MarkNone(ss, e.handle);
    }
  }

  /** A session after an event that leaves it in the list. */
  function Touched(s: Session, e: Event): Session {
    if e.Off? then Forced(s, e.handle) else s
  }

  lemma SubjectAt(ss: seq<Session>, e: Event, k: nat)
    requires k < |ss|
    ensures Subject(ss, e)[k] == Touched(ss[k], e)
  {
  }

  /** Where the session at `k` stands after an event, if it is still there. */
  function PlaceAfter(ss: seq<Session>, e: Event, k: nat): (r: Option<nat>)
    requires k < |ss|
    ensures r.Some? ==> r.value < |Step(ss, e)| && Step(ss, e)[r.value] == Touched(ss[k], e)
  {
    StepIs(ss, e);
    SubjectAt(ss, e, k);
    var l := Subject(ss, e);
    if !Cleans(ss, e) then Some(k)
    else if Kept(l, e.w, k) then
      KeptStands(l, e.w, k);
      Some(KeptBefore(l, e.w, k))
    else None
  }

  /** An event that opens a session, and when it says that was. */
  predicate Opens(e: Event) {
    e.Load? || (e.On? && e.accepted)
  }

  function Time(e: Event): int
    requires Opens(e)
  {
    if e.Load? then e.at else e.w.now
  }

  function Opened(e: Event): Session
    requires Opens(e)
  {
    Session(Time(e), e.handle, e.userhost, false)
  }

  /** Every session after an event was there before it, or the event opened it. */
  lemma StepFrom(ss: seq<Session>, e: Event, m: nat) returns (k: nat)
    requires m < |Step(ss, e)|
    ensures k <= |ss|
    ensures k < |ss| ==> PlaceAfter(ss, e, k) == Some(m)
    ensures k == |ss| ==> Opens(e) && Step(ss, e)[m] == Opened(e)
  {
    StepIs(ss, e);
    var l := Subject(ss, e);
    k := m;
    if Cleans(ss, e) {
      k := WhoStands(l, 0, e.w, m);
    }
    assert k < |l| && l[k] == Step(ss, e)[m];
  }

  /** Where the session at `k` stands after a run, if it is still there. */
  function Stand(ss: seq<Session>, k: nat, es: seq<Event>): (r: Option<nat>)
    requires k < |ss|
    ensures r.Some? ==> r.value < |Later(ss, es)|
    decreases |es|
  {
    if es == [] then Some(k)
    else
      var n := |es| - 1;
      match Stand(ss, k, es[..n])
      case None => None
      case Some(m) => PlaceAfter(Later(ss, es[..n]), es[n], m)
  }

  /** A run does not change who a session belongs to; one that was logged off stays as it is. */
  lemma {:induction false} StandsAs(ss: seq<Session>, k: nat, es: seq<Event>)
    requires k < |ss| && Stand(ss, k, es).Some?
    ensures var s := Later(ss, es)[Stand(ss, k, es).value];
      s.handle == ss[k].handle && s.userhost == ss[k].userhost
    decreases |es|
  {
    if es != [] {
      StandsAs(ss, k, es[..|es| - 1]);
    }
  }

  /** Every deletion of the session at `k` that a run asked for failed. */
  predicate NeverDeleted(ss: seq<Session>, k: nat, es: seq<Event>)
    requires k < |ss|
    decreases |es|
  {
    es == [] ||
    var n := |es| - 1;
    && NeverDeleted(ss, k, es[..n])
    && Stand(ss, k, es[..n]).Some?
    && (Cleans(Later(ss, es[..n]), es[n]) ==> Stand(ss, k, es[..n]).value in es[n].w.fails)
  }

  /** A session that was logged off is still there exactly when no deletion of it worked. */
  lemma {:induction false} LoggedOffStands(ss: seq<Session>, k: nat, off: Event, es: seq<Event>)
    requires k < |ss| && off.Off? && SameText(ss[k].handle, off.handle)
    ensures Stand(ss, k, [off] + es).Some? <==> NeverDeleted(ss, k, [off] + es)
    ensures Stand(ss, k, [off] + es).Some? ==>
      var s := Later(ss, [off] + es)[Stand(ss, k, [off] + es).value]; s.forced && s.at == 0
    decreases |es|
  {
    var run, n := [off] + es, |es|;
    if es == [] {
      assert run[..n] == [];
      assert Stand(ss, k, run) == PlaceAfter(ss, off, k);
      SubjectAt(ss, off, k);
    } else {
      assert run[..n] == [off] + es[..n - 1];
      LoggedOffStands(ss, k, off, es[..n - 1]);
      var m := Stand(ss, k, run[..n]);
      if m.Some? {
        SubjectAt(Later(ss, run[..n]), run[n], m.value);
      }
    }
  }

  // ---------------------------------------------------------------- logging off

  /** A logoff leaves a session of the handle if and only if the database did not delete one. */
  lemma {:induction false} LogOffHolds(ss: seq<Session>, handle: string, w: Sweep)
    ensures (exists s :: s in LoggedOff(ss, handle, w) && SameText(s.handle, handle))
       <==> exists k :: 0 <= k < |ss| && k in w.fails && SameText(ss[k].handle, handle)
  {
    var l := LoggedOff(ss, handle, w);
    if s :| s in l && SameText(s.handle, handle) {
      var m :| 0 <= m < |l| && l[m] == s;
      var k := StepFrom(ss, Off(handle, w), m);
      assert HasHandle(ss, handle);
      SubjectAt(ss, Off(handle, w), k);
    }
    if k :| 0 <= k < |ss| && k in w.fails && SameText(ss[k].handle, handle) {
      var m := PlaceAfter(ss, Off(handle, w), k);
      assert l[m.value] in l;
    }
  }

  predicate Belongs(s: Session, handle: string, userhost: string) {
    SameText(s.handle, handle) && SameText(s.userhost, userhost)
  }

  /** No event opens a session of the handle. */
  predicate NoneOpened(es: seq<Event>, handle: string) {
    forall j :: 0 <= j < |es| && Opens(es[j]) ==> !SameText(es[j].handle, handle)
  }

  /** While a handle does not log on again, a session of it is one that was there before. */
  lemma {:induction false} WasThere(ss: seq<Session>, es: seq<Event>, m: nat, handle: string) returns (k: nat)
    requires m < |Later(ss, es)| && SameText(Later(ss, es)[m].handle, handle) && NoneOpened(es, handle)
    ensures k < |ss| && Stand(ss, k, es) == Some(m)
    decreases |es|
  {
    if es == [] {
      k := m;
    } else {
      var n := |es| - 1;
      var k' := StepFrom(Later(ss, es[..n]), es[n], m);
      k := WasThere(ss, es[..n], k', handle);
    }
  }

  /** Over every run in which it does not log on again: a handle that was logged off still has a session for a host
      if and only if it had one whose deletion failed at the logoff and at every cleaning since. */
  lemma {:induction false} LogOffOutlivedExactly(ss: seq<Session>, handle: string, userhost: string, w: Sweep,
                                                 es: seq<Event>)
    requires NoneOpened(es, handle)
    ensures (exists s :: s in Later(LoggedOff(ss, handle, w), es) && Belongs(s, handle, userhost))
       <==> exists k :: 0 <= k < |ss| && Belongs(ss[k], handle, userhost)
                        && NeverDeleted(ss, k, [Off(handle, w)] + es)
  {
    var off := Off(handle, w);
    var run := [off] + es;
    assert Later(ss, [off]) == LoggedOff(ss, handle, w) by {
      assert [off][..0] == [];
    }
    LaterConcat(ss, [off], es);
    var l := Later(ss, run);
    if s :| s in l && Belongs(s, handle, userhost) {
      var m :| 0 <= m < |l| && l[m] == s;
      assert NoneOpened(run, handle);
      var k := WasThere(ss, run, m, handle);
      StandsAs(ss, k, run);
      LoggedOffStands(ss, k, off, es);
      assert Belongs(ss[k], handle, userhost);
    }
    if k :| 0 <= k < |ss| && Belongs(ss[k], handle, userhost) && NeverDeleted(ss, k, run) {
      LoggedOffStands(ss, k, off, es);
      StandsAs(ss, k, run);
      var m := Stand(ss, k, run).value;
      assert l[m] in l && Belongs(l[m], handle, userhost);
    }
  }

  // ---------------------------------------------------------------- the verdict, exactly

  /** A user's session of this host that is looked at. */
  ghost predicate Good(s: Session, users: seq<User>, userhost: string, lasting: bool, now: int) {
    && Counts(s, userhost, lasting, now)
    && Find(users, s.handle).Some? && Known(Find(users, s.handle).value, userhost)
  }

  /** No session from `i` on and ahead of `k` stops the walk for want of a user. */
  predicate NoOrphan(ss: seq<Session>, i: nat, k: nat, users: seq<User>, userhost: string, lasting: bool, now: int)
    requires k <= |ss|
  {
    forall j :: i <= j < k && Counts(ss[j], userhost, lasting, now) ==> Find(users, ss[j].handle).Some?
  }

  /** A logon is valid if and only if there is a good session that no orphan stands ahead of. */
  lemma {:induction false} ValidExactly(ss: seq<Session>, i: nat, users: seq<User>, userhost: string,
                                        lasting: bool, now: int)
    requires i <= |ss|
    ensures ValidLogon(ss, i, users, userhost, lasting, now)
       <==> exists k :: i <= k < |ss| && Good(ss[k], users, userhost, lasting, now)
                        && NoOrphan(ss, i, k, users, userhost, lasting, now)
    decreases |ss| - i
  {
    if i < |ss| {
      ValidExactly(ss, i + 1, users, userhost, lasting, now);
      if k :| i <= k < |ss| && Good(ss[k], users, userhost, lasting, now)
              && NoOrphan(ss, i, k, users, userhost, lasting, now) {
        assert k > i ==> NoOrphan(ss, i + 1, k, users, userhost, lasting, now);
      }
      if k :| i + 1 <= k < |ss| && Good(ss[k], users, userhost, lasting, now)
              && NoOrphan(ss, i + 1, k, users, userhost, lasting, now) {
        assert (Counts(ss[i], userhost, lasting, now) && Find(users, ss[i].handle).None?)
            || NoOrphan(ss, i, k, users, userhost, lasting, now);
      }
      assert Good(ss[i], users, userhost, lasting, now) ==> NoOrphan(ss, i, i, users, userhost, lasting, now);
    }
  }

  // ---------------------------------------------------------------- where a session comes from

  /** Session `s` was opened by event `i`, and its handle was not logged off since. */
  predicate OpenedAt(es: seq<Event>, i: nat, s: Session) {
    && i < |es| && Opens(es[i]) && s == Opened(es[i])
    && forall j :: i < j < |es| && es[j].Off? ==> !SameText(s.handle, es[j].handle)
  }

  lemma {:induction false} OpenedSomewhere(es: seq<Event>, m: nat) returns (i: nat)
    requires m < |After(es)| && !After(es)[m].forced
    ensures OpenedAt(es, i, After(es)[m])
    decreases |es|
  {
    var n := |es| - 1;
    var was, e := After(es[..n]), es[n];
    var k := StepFrom(was, e, m);
    if k == |was| {
      i := n;
    } else {
      i := OpenedSomewhere(es[..n], k);
    }
  }

  /** The session at `m` was logged off by event `j`, when it stood at `k`, and no deletion of it has worked. */
  predicate LeftAt(es: seq<Event>, j: nat, k: nat, m: nat) {
    && j < |es| && es[j].Off?
    && k < |After(es[..j])| && SameText(After(es[..j])[k].handle, es[j].handle)
    && NeverDeleted(After(es[..j]), k, es[j..]) && Stand(After(es[..j]), k, es[j..]) == Some(m)
  }

  lemma {:induction false} LeftSomewhere(es: seq<Event>, m: nat) returns (j: nat, k: nat)
    requires m < |After(es)| && After(es)[m].forced
    ensures LeftAt(es, j, k, m)
    decreases |es|
  {
    var k' := CameFrom(es, m);
    hide After, PlaceAfter, Stand, NeverDeleted, LeftAt;
    if After(es[..|es| - 1])[k'].forced {
      j, k := LeftSomewhere(es[..|es| - 1], k');
      StillLeft(es, j, k, k', m);
    } else {
      j, k := |es| - 1, k';
      JustLeft(es, k', m);
    }
  }

  /** Where a session that was logged off stood ahead of the last event. */
  lemma CameFrom(es: seq<Event>, m: nat) returns (k: nat)
    requires m < |After(es)| && After(es)[m].forced
    ensures es != [] && k < |After(es[..|es| - 1])| && PlaceAfter(After(es[..|es| - 1]), es[|es| - 1], k) == Some(m)
  {
    assert es != [] && After(es) == Step(After(es[..|es| - 1]), es[|es| - 1]);
    hide After, Later, Step, PlaceAfter;
    k := StepFrom(After(es[..|es| - 1]), es[|es| - 1], m);
  }

  lemma JustLeft(es: seq<Event>, k: nat, m: nat)
    requires m < |After(es)| && After(es)[m].forced
    requires es != [] && k < |After(es[..|es| - 1])| && !After(es[..|es| - 1])[k].forced
    requires PlaceAfter(After(es[..|es| - 1]), es[|es| - 1], k) == Some(m)
    ensures LeftAt(es, |es| - 1, k, m)
  {
    var was, e := After(es[..|es| - 1]), es[|es| - 1];
    assert After(es) == Step(was, e);
    assert After(es)[m] == Touched(was[k], e);
    assert es[|es| - 1..] == [e] + [] && [e][..0] == [];
    hide PlaceAfter, After, Step;
    LoggedOffStands(was, k, e, []);
  }

  lemma StillLeft(es: seq<Event>, j: nat, k: nat, k': nat, m: nat)
    requires es != [] && LeftAt(es[..|es| - 1], j, k, k') && k' < |After(es[..|es| - 1])|
    requires PlaceAfter(After(es[..|es| - 1]), es[|es| - 1], k') == Some(m)
    ensures LeftAt(es, j, k, m)
  {
    hide PlaceAfter, Step, Stand, NeverDeleted, Later;
    var n := |es| - 1;
    var front, tail, ss := es[..n], es[j..], After(es[..j]);
    assert front[..j] == es[..j] && front == es[..j] + front[j..] && tail[..|tail| - 1] == front[j..];
    LaterConcat([], es[..j], front[j..]);
    assert tail == [es[j]] + tail[1..];
    StandOneMore(ss, k, tail, k', m);
    LoggedOffStands(ss, k, es[j], tail[1..]);
  }

  lemma StandOneMore(ss: seq<Session>, k: nat, run: seq<Event>, before: nat, m: nat)
    requires k < |ss| && run != [] && Stand(ss, k, run[..|run| - 1]) == Some(before)
    requires PlaceAfter(Later(ss, run[..|run| - 1]), run[|run| - 1], before) == Some(m)
    ensures Stand(ss, k, run) == Some(m)
  {
    hide PlaceAfter, Later;
  }

  // ---------------------------------------------------------------- soundness

  /** Event `i` entitles to a valid logon: it opened a session for this host, the handle was not logged off since,
      and it still is that of a user with a mask for the host. */
  ghost predicate Entitles(es: seq<Event>, i: nat, users: seq<User>, userhost: string) {
    && i < |es| && Opens(es[i]) && SameText(es[i].userhost, userhost)
    && (forall j :: i < j < |es| && es[j].Off? ==> !SameText(es[i].handle, es[j].handle))
    && Find(users, es[i].handle).Some? && Known(Find(users, es[i].handle).value, userhost)
  }

  /** Over every run: a logon is valid only through one with the right password for this host, or one read from the
      database, that was not followed by a logoff of its handle and without flag `x` is at most 1800 seconds old; or,
      with flag `x`, through a session of this host that was logged off and that no deletion removed. */
  lemma {:induction false} ValidMeansLoggedOn(es: seq<Event>, users: seq<User>, userhost: string, lasting: bool,
                                              now: int)
    requires ValidLogon(After(es), 0, users, userhost, lasting, now) && (lasting || now > OER_LOGON_TIMEOUT)
    ensures
      || (exists i: nat :: Entitles(es, i, users, userhost) && (!lasting ==> now <= Time(es[i]) + OER_LOGON_TIMEOUT))
            || (lasting && exists j: nat, k: nat, m: nat :: LeftAt(es, j, k, m) && m < |After(es)|
                             && Good(After(es)[m], users, userhost, lasting, now))
  {
    ValidExactly(After(es), 0, users, userhost, lasting, now);
    var m :| 0 <= m < |After(es)| && Good(After(es)[m], users, userhost, lasting, now);
    if After(es)[m].forced {
      var j, k := LeftSomewhere(es, m);
      ForcedIsOld(es, m);
    } else {
      var i := OpenedSomewhere(es, m);
      assert Entitles(es, i, users, userhost);
    }
  }

  lemma {:induction false} ForcedIsOld(es: seq<Event>, m: nat)
    requires m < |After(es)| && After(es)[m].forced
    ensures After(es)[m].at == 0
    decreases |es|
  {
    var n := |es| - 1;
    var was := After(es[..n]);
    var k := StepFrom(was, es[n], m);
    if was[k].forced {
      ForcedIsOld(es[..n], k);
    }
  }

  lemma StarKnows(userhost: string)
    ensures Known(User("joe", ["*"]), userhost)
  {
    assert Commits("*", 1, userhost, |userhost|);
    assert CommitsLater("*", 1, userhost, 0);
    assert User("joe", ["*"]).masks[0] == "*";
  }

  /** An instance: on a channel with flag `x` a logoff that the database does not carry out leaves the logon valid. */
  lemma {:induction false} LogOffOutlived(userhost: string, now: int)
    ensures var es := [On("joe", userhost, true, true, Sweep(now, false, true, {})),
                       Off("joe", Sweep(now, false, true, {0}))];
      ValidLogon(After(es), 0, [User("joe", ["*"])], userhost, true, now)
  {
    var on := On("joe", userhost, true, true, Sweep(now, false, true, {}));
    var off := Off("joe", Sweep(now, false, true, {0}));
    var es, s := [on, off], Session(now, "joe", userhost, false);
    assert es[..1] == [on];
    assert [on][..0] == [];
    assert !Blocked([], "joe", userhost, true, now);
    assert Added([], now, "joe", userhost, true, now) == [s];
    assert Cleaned([s], 1, on.w) == [] && Cleaned([s], 0, on.w) == [s];
    assert Later([], []) == [];
    assert After([on]) == Step([], on) == [s];
    assert SameText([s][0].handle, "joe");
    assert HasHandle([s], "joe");
    assert Marked([s], "joe") == [Session(0, "joe", userhost, true)];
    assert Cleaned([Session(0, "joe", userhost, true)], 0, off.w) == [Session(0, "joe", userhost, true)];
    assert After(es) == Step([s], off) == [Session(0, "joe", userhost, true)];
    StarKnows(userhost);
    assert Find([User("joe", ["*"])], "joe") == Some(User("joe", ["*"]));
  }

  /** An instance: a session whose handle has no user hides the one behind it, but not the one ahead of it. */
  lemma {:induction false} OrphanHides(userhost: string, now: int)
    ensures var gone, joe := Session(now, "gone", userhost, false), Session(now, "joe", userhost, false);
      var users := [User("joe", ["*"])];
      && !ValidLogon([gone, joe], 0, users, userhost, false, now)
      && ValidLogon([joe, gone], 0, users, userhost, false, now)
  {
    var users := [User("joe", ["*"])];
    StarKnows(userhost);
    assert Find(users, "joe") == Some(users[0]);
    assert users[1..] == [];
    assert !SameText("joe", "gone");
    assert Find(users, "gone") == None;
  }

  // ---------------------------------------------------------------- completeness

  /** Nothing after event `i` ends the session that it opened. */
  predicate Undisturbed(es: seq<Event>, i: nat) {
    i < |es| && Opens(es[i]) &&
    forall j {:trigger es[j]} :: i < j < |es| ==>
      && !es[j].w.force && (es[j].Off? ==> !SameText(es[i].handle, es[j].handle))
      && (es[j].w.lasting || es[j].w.now < Time(es[i]) + OER_LOGON_TIMEOUT)
  }

  lemma {:induction false} SessionLasts(es: seq<Event>, i: nat)
    requires Undisturbed(es, i) && !es[i].w.force
    requires !Blocked(After(es[..i]), es[i].handle, es[i].userhost, es[i].w.lasting, es[i].w.now)
    ensures Opened(es[i]) in After(es)
    decreases |es|
  {
    var n, s := |es| - 1, Opened(es[i]);
    var was, e := After(es[..n]), es[n];
    StepIs(was, e);
    if i == n {
      assert s in Subject(was, e);
      CleanedHas(Subject(was, e), e.w, s);
    } else {
      assert es[..n][..i] == es[..i];
      SessionLasts(es[..n], i);
      var k :| 0 <= k < |was| && was[k] == s;
      SubjectAt(was, e, k);
      assert Stays(s, e.w.force, e.w.lasting, e.w.now);
      assert PlaceAfter(was, e, k).Some?;
    }
  }

  /** Over every run: a logon that was let in counts for 1800 seconds, with flag `x` for ever, whether or not the
      database took it, unless its handle is logged off, everybody is logged off by force, its user is changed, or a
      session without a user stands ahead of it. */
  lemma {:induction false} LogonLasts(es: seq<Event>, i: nat, users: seq<User>, userhost: string, lasting: bool,
                                      now: int)
    requires Entitles(es, i, users, userhost) && Undisturbed(es, i) && !es[i].w.force
    requires !Blocked(After(es[..i]), es[i].handle, es[i].userhost, es[i].w.lasting, es[i].w.now)
    requires lasting || now <= Time(es[i]) + OER_LOGON_TIMEOUT
    requires forall k :: 0 <= k < |After(es)| && After(es)[k] == Opened(es[i]) ==>
      NoOrphan(After(es), 0, k, users, userhost, lasting, now)
    ensures ValidLogon(After(es), 0, users, userhost, lasting, now)
  {
    SessionLasts(es, i);
    var ss := After(es);
    var k :| 0 <= k < |ss| && ss[k] == Opened(es[i]);
    assert Good(ss[k], users, userhost, lasting, now);
    ValidExactly(ss, 0, users, userhost, lasting, now);
  }

  /** The check has a session one second longer than cleaning: in that second, and only then, whether it is valid
      depends on whether the list was cleaned. */
  lemma {:induction false} LastSecond(s: Session, u: User, now: int)
    requires !s.forced && SameText(u.handle, s.handle) && Known(u, s.userhost)
    ensures var swept := Cleaned([s], 0, Sweep(now, false, false, {}));
      (ValidLogon([s], 0, [u], s.userhost, false, now) != ValidLogon(swept, 0, [u], s.userhost, false, now))
        <==> now == s.at + OER_LOGON_TIMEOUT
  {
    var w := Sweep(now, false, false, {});
    assert Cleaned([s], 1, w) == [];
    assert Find([u], s.handle) == Some(u);
    assert !ValidLogon([s], 1, [u], s.userhost, false, now);
    assert Cleaned([s], 0, w) == if now < s.at + OER_LOGON_TIMEOUT then [s] else [];
  }

  // ---------------------------------------------------------------- one logon at a time

  /** Sessions of one handle and host that were not logged off lie at least 1800 seconds apart. */
  predicate Spaced(ss: seq<Session>) {
    forall i, j :: 0 <= i < j < |ss| ==> ApartAt(ss[i], ss[j])
  }

  predicate ApartAt(a: Session, b: Session) {
    !a.forced && !b.forced && SameText(a.handle, b.handle) && SameText(a.userhost, b.userhost) ==> a.at + 1800 <= b.at
  }

  lemma {:induction false} CleanedOnly(ss: seq<Session>, i: nat, w: Sweep)
    requires i <= |ss|
    ensures forall s :: s in Cleaned(ss, i, w) ==> s in ss[i..]
    decreases |ss| - i
  {
    if i < |ss| {
      CleanedOnly(ss, i + 1, w);
      assert ss[i..] == [ss[i]] + ss[i + 1..];
    }
  }

  lemma {:induction false} CleanedSpaced(ss: seq<Session>, i: nat, w: Sweep)
    requires i <= |ss| && Spaced(ss)
    ensures Spaced(Cleaned(ss, i, w))
    decreases |ss| - i
  {
    if i < |ss| {
      CleanedSpaced(ss, i + 1, w);
      CleanedOnly(ss, i + 1, w);
      var rest := Cleaned(ss, i + 1, w);
      forall j | 0 <= j < |rest| ensures ApartAt(ss[i], rest[j]) {
        assert rest[j] in ss[i + 1..];
        var k :| 0 <= k < |ss[i + 1..]| && ss[i + 1..][k] == rest[j];
        assert ss[i + 1 + k] == rest[j];
      }
      hide ApartAt, Stays;
    }
  }

  lemma MarkedSpaced(ss: seq<Session>, handle: string)
    requires Spaced(ss)
    ensures Spaced(Marked(ss, handle))
  {
    forall i, j | 0 <= i < j < |ss| ensures ApartAt(Marked(ss, handle)[i], Marked(ss, handle)[j]) {
      assert ApartAt(ss[i], ss[j]);
    }
  }

  lemma AddedSpaced(ss: seq<Session>, handle: string, userhost: string, now: int)
    requires Spaced(ss)
    ensures Spaced(Added(ss, now, handle, userhost, false, now))
  {
    var s := Session(now, handle, userhost, false);
    if !Blocked(ss, handle, userhost, false, now) {
      forall i | 0 <= i < |ss| ensures ApartAt(ss[i], s) {
        assert !Blocks(ss[i], handle, userhost, false, now);
      }
    }
    hide ApartAt, Blocked;
  }

  /** Over every run without flag `x` in which sessions are only opened by logons: nobody is logged on twice from one
      host within 1800 seconds, unless the first logon was logged off. */
  lemma {:induction false} LogonsSpaced(es: seq<Event>)
    requires forall e :: e in es ==> !e.Load? && !e.w.lasting
    ensures Spaced(After(es))
    decreases |es|
  {
    if es != [] {
      var n := |es| - 1;
      var was, e := After(es[..n]), es[n];
      assert e in es && forall x :: x in es[..n] ==> x in es;
      LogonsSpaced(es[..n]);
      assert After(es) == Step(was, e);
      hide After, Spaced, Added, Marked, Cleaned, HasHandle, Blocked;
      match e {
        case On(handle, userhost, accepted, stored, w) =>
          AddedSpaced(was, handle, userhost, w.now);
          CleanedSpaced(Added(was, w.now, handle, userhost, false, w.now), 0, w);
        case Off(handle, w) =>
          MarkedSpaced(was, handle);
          CleanedSpaced(Marked(was, handle), 0, w);
        case Clean(w) => CleanedSpaced(was, 0, w);
      }
    }
  }

  /** An accepted logon opens a session of now unless there is one of that handle and host already that is younger than
      1800 seconds or, with flag `x`, of any age; the database does not matter to that. */
  lemma {:induction false} LogonOpens(ss: seq<Session>, handle: string, userhost: string, stored: bool, w: Sweep)
    requires !w.force
    ensures var l := LoggedOn(ss, handle, userhost, true, stored, w);
      if exists i :: 0 <= i < |ss| && SameText(ss[i].handle, handle) && SameText(ss[i].userhost, userhost)
                     && (w.lasting || w.now - ss[i].at < 1800)
      then l == ss else l != [] && l[|l| - 1] == Session(w.now, handle, userhost, false)
  {
    if i :| 0 <= i < |ss| && SameText(ss[i].handle, handle) && SameText(ss[i].userhost, userhost)
            && (w.lasting || w.now - ss[i].at < 1800) {
      assert Blocks(ss[i], handle, userhost, w.lasting, w.now);
    } else {
      assert !Blocked(ss, handle, userhost, w.lasting, w.now);
      LastCleaned(ss, 0, Session(w.now, handle, userhost, false), w);
    }
  }

  /** A new session survives the cleaning that comes with it. */
  lemma {:induction false} LastCleaned(ss: seq<Session>, i: nat, s: Session, w: Sweep)
    requires i <= |ss| && Stays(s, w.force, w.lasting, w.now)
    ensures var l := Cleaned(ss + [s], i, w); l != [] && l[|l| - 1] == s
    decreases |ss| - i
  {
    if i < |ss| {
      LastCleaned(ss, i + 1, s, w);
    } else {
      assert (ss + [s])[i] == s && Cleaned(ss + [s], i + 1, w) == [];
    }
    hide Stays;
  }

  /** The user that a session is of: the first of its handle, letter case aside. */
  lemma {:induction false} FirstUser(users: seq<User>, handle: string)
    ensures match Find(users, handle)
      case None => forall i :: 0 <= i < |users| ==> !SameText(users[i].handle, handle)
      case Some(u) => exists i :: 0 <= i < |users| && users[i] == u && SameText(u.handle, handle)
                                  && forall j :: 0 <= j < i ==> !SameText(users[j].handle, handle)
  {
    if users != [] && !SameText(users[0].handle, handle) {
      var rest := users[1..];
      FirstUser(rest, handle);
      assert forall j :: 0 < j < |users| ==> users[j] == rest[j - 1];
      var u := Find(rest, handle);
      if u.Some? {
        var i :| 0 <= i < |rest| && rest[i] == u.value && forall j :: 0 <= j < i ==> !SameText(rest[j].handle, handle);
        assert users[i + 1] == u.value;
      }
    }
  }

  /** And the user is known exactly if one of the masks means the host; a host is one word. */
  lemma {:induction false} KnownMeans(u: User, userhost: string)
    requires NoSpace(userhost, 0, |userhost|)
    ensures Known(u, userhost) <==> exists k :: 0 <= k < |u.masks| && Matches(u.masks[k], 0, userhost, 0)
  {
    forall k | 0 <= k < |u.masks| ensures Commits(u.masks[k], 0, userhost, 0) <==> Matches(u.masks[k], 0, userhost, 0) {
      if Commits(u.masks[k], 0, userhost, 0) {
        CommitsSound(u.masks[k], 0, userhost, 0);
      } else if Matches(u.masks[k], 0, userhost, 0) {
        MatchCommits(u.masks[k], 0, userhost, 0);
      }
    }
    hide Commits, Matches;
  }

  /** A cleaning that is forced leaves only what the database does not delete. */
  lemma {:induction false} ForcedClean(ss: seq<Session>, i: nat, w: Sweep)
    requires i <= |ss| && w.force
    ensures Cleaned(ss, i, w) == [] <==> forall k :: i <= k < |ss| ==> k !in w.fails
    decreases |ss| - i
  {
    if i < |ss| {
      ForcedClean(ss, i + 1, w);
    }
  }
}
