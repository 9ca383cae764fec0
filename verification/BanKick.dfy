/** The !bankick command: `banuser` and `kickuser` of ds.c, the BANKICK branch of
    `parsecommand` in parse.c, and what the main loop then makes of them. */
module BanKick {
  import opened Chars
  import opened Options
  import opened Words
  import opened BanMasks
  import opened SortedQueue
  import opened Scheduler
  import opened Batching
  import opened Flushing
  import opened Delivery

  datatype ChanUser = ChanUser(nick: string, userhost: Option<string>)

  /** What the command looks at besides the two queues. */
  datatype Scene =
    Scene(users: seq<ChanUser>, bantype: int, setting: Setting, normalBan: int, kickreason: Option<string>)

  function FindUser(users: seq<ChanUser>, nick: string): (u: Option<ChanUser>)
    ensures u.Some? ==> u.value in users
  {
    if users == [] then None
    else if SameText(users[0].nick, nick) then Some(users[0])
    else FindUser(users[1..], nick)
  }

  predicate Addressed(users: seq<ChanUser>) {
    forall u :: u in users && u.userhost.Some? ==> '@' in u.userhost.value && |u.userhost.value| <= USERHOSTLEN
  }

  function Target(u: ChanUser): Who
    requires u.userhost.Some? && '@' in u.userhost.value
  {
    var h := u.userhost.value;
    var at := IndexOf(h, '@');
    Who(u.nick, h[..at], if at < |h| then h[at + 1..] else "")
  }

  /** The mask a ban of that nick puts on the channel. */
  ghost function MaskFor(sc: Scene, nick: string): Option<string>
    requires Addressed(sc.users)
  {
    match FindUser(sc.users, nick)
    case None => None
    case Some(u) =>
      if u.userhost.None? then None
      else
        var c := Choice(sc.bantype, Target(u), sc.setting, TYPE_INVALID);
        if c.None? then None else Some(BanMask(c.value, Target(u)))
  }

  /** The waiting modes after `banuser`. */
  ghost function Banned(sc: Scene, nick: string, when: int, ms: seq<Mmode>): seq<Mmode>
    requires Addressed(sc.users)
  {
    var mask := MaskFor(sc, nick);
    if mask.None? || sc.normalBan <= 0 then ms
    else
      Inserted(MmodeCmp, Mmode(when + sc.normalBan, "-b", mask),
        Inserted(MmodeCmp, Mmode(when, "+b", mask), ms))
  }

  method FindChanUser(users: seq<ChanUser>, nick: string) returns (u: Option<ChanUser>)
    ensures u == FindUser(users, nick)
  {
    var i := 0;
    while i < |users|
      invariant 0 <= i <= |users|
      invariant FindUser(users, nick) == FindUser(users[i..], nick)
    {
      if SameText(users[i].nick, nick) {
        return Some(users[i]);
      }
      i := i + 1;
    }
    return None;
  }

  /** The first half of `banuser`. */
  method FindMask(sc: Scene, nick: string) returns (mask: Option<string>)
    requires Addressed(sc.users)
    ensures mask == MaskFor(sc, nick)
  {
    var u := FindChanUser(sc.users, nick);
    if u.None? || u.value.userhost.None? {
      return None;
    }
    mask := SafeBan(sc.bantype, sc.setting, u.value.userhost.value, u.value.nick);
  }

  method BanUser(ch: ModeQueue, sc: Scene, when: int, nick: string)
    requires ch.Valid() && Addressed(sc.users)
    modifies ch.mmodes, ch.mmodes.repr
    ensures ch.Valid() && fresh(ch.mmodes.repr - old(ch.mmodes.repr))
    ensures ch.mmodes.Contents() == Banned(sc, nick, when, old(ch.mmodes.Contents()))
  {
    hide Queue.Valid, Queue.Contents, Inserted, MaskFor;
    var ban := FindMask(sc, nick);
    if ban.Some? && sc.normalBan > 0 {
      var _ := ch.mmodes.Insert(Mmode(when, "+b", ban));
      var _ := ch.mmodes.Insert(Mmode(when + sc.normalBan, "-b", ban));
    }
  }

  predicate IsSpace(c: char) {
    c == ' ' || '\t' <= c <= '\r'
  }

  /** `striplf` */
  function Stripped(s: string): string {
    if s == "" || !IsSpace(s[|s| - 1]) then s else Stripped(s[..|s| - 1])
  }

  function KickLine(name: string, nick: string, reason: string): string {
    Truncated("KICK " + name + " " + nick + " :" + reason, WRITE_BUFFER_LENGTH)
  }

  /** The KICK that `kickuser` queues, if any. */
  function KickOf(sc: Scene, name: string, nick: string, when: int, reason: Option<string>): Option<Timed> {
    match FindUser(sc.users, nick)
    case None => None
    case Some(u) =>
      if u.userhost.None? then None
      else
        var text := if reason.Some? then Stripped(reason.value)
                    else if sc.kickreason.Some? then sc.kickreason.value else sc.setting.me.nick;
        Some(Timed(when, Normal, PRIO_CHANNEL_PROTECTION, None, KickLine(name, u.nick, text)))
  }

  function Kicked(kick: Option<Timed>, q: seq<Timed>): seq<Timed> {
    if kick.None? then q else Inserted(TimedCmp, kick.value, q)
  }

  method KickUser(timeds: Queue<Timed>, sc: Scene, name: string, when: int, nick: string, reason: Option<string>)
    requires timeds.Valid() && timeds.cmp == TimedCmp
    modifies timeds, timeds.repr
    ensures timeds.Valid() && fresh(timeds.repr - old(timeds.repr))
    ensures timeds.Contents() == Kicked(KickOf(sc, name, nick, when, reason), old(timeds.Contents()))
  {
    hide Queue.Valid, Queue.Contents, Inserted, KickLine;
    var u := FindChanUser(sc.users, nick);
    if u.None? || u.value.userhost.None? {
      return;
    }
    var line := KickLine(name, u.value.nick, sc.setting.me.nick);
    if sc.kickreason.Some? {
      line := KickLine(name, u.value.nick, sc.kickreason.value);
    }
    if reason.Some? {
      line := KickLine(name, u.value.nick, Stripped(reason.value));
    }
    var _ := timeds.Insert(Timed(when, Normal, PRIO_CHANNEL_PROTECTION, None, line));
  }

  /** The nick and the reason on the command line; no nick when the first word is too long. */
  function Asked(line: string): Option<(string, Option<string>)> {
    var pos := Next(line, 0, STRINGLEN);
    if pos < 0 then None
    else Some((Word(line, 0, STRINGLEN), if pos < |line| then Some(line[pos..]) else None))
  }

  method BanKickCommand(ch: ModeQueue, timeds: Queue<Timed>, sc: Scene, now: int, allowed: bool, line: string)
    requires ch.Valid() && Addressed(sc.users) && timeds.Valid() && timeds.cmp == TimedCmp
    modifies ch.mmodes, ch.mmodes.repr, timeds, timeds.repr
    ensures ch.Valid() && fresh(ch.mmodes.repr - old(ch.mmodes.repr))
    ensures timeds.Valid() && fresh(timeds.repr - old(timeds.repr))
    ensures !allowed || Asked(line).None? ==>
      ch.mmodes.Contents() == old(ch.mmodes.Contents()) && timeds.Contents() == old(timeds.Contents())
    ensures allowed && Asked(line).Some? ==>
      var (nick, reason) := Asked(line).value;
      && ch.mmodes.Contents() == Banned(sc, nick, now - 1, old(ch.mmodes.Contents()))
      && timeds.Contents() == Kicked(KickOf(sc, ch.name, nick, now, reason), old(timeds.Contents()))
  {
    hide Queue.Valid, Queue.Contents, Banned, Kicked, KickOf;
    if !allowed {
      return;
    }
    var pos, nick := Parse(line, 0, STRINGLEN);
    if pos < 0 {
      return;
    }
    BanUser(ch, sc, now - 1, nick);
    KickUser(timeds, sc, ch.name, now, nick, if pos < |line| then Some(line[pos..]) else None);
  }

  // ---------------------------------------------------------------- the ban goes out before the kick

  function ModesArrive(more: seq<Mmode>, ms: seq<Mmode>): seq<Mmode> {
    if more == [] then ms else ModesArrive(more[1..], Inserted(MmodeCmp, more[0], ms))
  }

  lemma InsertedHolds<T>(cmp: Comparison<T>, x: T, s: seq<T>)
    ensures x in Inserted(cmp, x, s) && forall y :: y in s ==> y in Inserted(cmp, x, s)
  {
    var k := InsertAt(cmp, x, s, 0);
    assert s == s[..k] + s[k..];
  }

  lemma {:induction false} ModesArriveHolds(more: seq<Mmode>, ms: seq<Mmode>, m: Mmode)
    requires m in ms
    ensures m in ModesArrive(more, ms)
    decreases more
  {
    if more != [] {
      InsertedHolds(MmodeCmp, more[0], ms);
      ModesArriveHolds(more[1..], Inserted(MmodeCmp, more[0], ms), m);
    }
  }

  /** Flushing a channel queues every one of its batches and keeps the queue in order. */
  lemma {:induction false} QueuedHolds(name: string, batches: seq<Batch>, q: seq<Timed>, t: Timed)
    requires Sorted(TimedCmp, q)
    requires t in q || exists b :: b in batches && t == ModeCommand(name, b)
    ensures Sorted(TimedCmp, Queued(name, batches, q)) && t in Queued(name, batches, q)
    decreases batches
  {
    if batches != [] {
      InsertedKeeps(ModeCommand(name, batches[0]), q);
      QueuedHolds(name, batches[1..], Inserted(TimedCmp, ModeCommand(name, batches[0]), q), t);
    }
  }

  lemma {:induction false} QueuedSorted(name: string, batches: seq<Batch>, q: seq<Timed>)
    requires Sorted(TimedCmp, q)
    ensures Sorted(TimedCmp, Queued(name, batches, q))
    decreases batches
  {
    if batches != [] {
      InsertedKeeps(ModeCommand(name, batches[0]), q);
      QueuedSorted(name, batches[1..], Inserted(TimedCmp, ModeCommand(name, batches[0]), q));
    }
  }

  lemma {:induction false} FlushedHolds(ws: seq<Waiting>, now: int, limit: nat, q: seq<Timed>, t: Timed)
    requires Sorted(TimedCmp, q) && t in q
    ensures Sorted(TimedCmp, FlushedAll(ws, now, limit, q)) && t in FlushedAll(ws, now, limit, q)
    decreases ws
  {
    if ws != [] {
      var batches := Taken(ws[0], now, limit).batches;
      QueuedHolds(ws[0].name, batches, q, t);
      FlushedHolds(ws[1..], now, limit, Queued(ws[0].name, batches, q), t);
    }
  }

  lemma {:induction false} FlushedQueues(ws: seq<Waiting>, c: nat, b: Batch, now: int, limit: nat, q: seq<Timed>)
    requires Sorted(TimedCmp, q) && c < |ws| && b in Taken(ws[c], now, limit).batches
    ensures Sorted(TimedCmp, FlushedAll(ws, now, limit, q))
    ensures ModeCommand(ws[c].name, b) in FlushedAll(ws, now, limit, q)
    decreases ws
  {
    var batches := Taken(ws[0], now, limit).batches;
    if c == 0 {
      QueuedHolds(ws[0].name, batches, q, ModeCommand(ws[0].name, b));
      FlushedHolds(ws[1..], now, limit, Queued(ws[0].name, batches, q), ModeCommand(ws[0].name, b));
    } else {
      QueuedSorted(ws[0].name, batches, q);
      FlushedQueues(ws[1..], c - 1, b, now, limit, Queued(ws[0].name, batches, q));
    }
  }

  /** A due mode goes into a batch that is queued no later than the mode was. */
  lemma BatchOf(w: Waiting, m: Mmode, now: int, limit: nat) returns (b: Batch)
    requires m in w.modes && m.at <= now
    ensures b in Taken(w, now, limit).batches && m in b.modes && b.at <= m.at
  {
    FlushConserves(w.modes, now, limit, now, []);
    FlushInTime(w.modes, now, limit, now, []);
    DueHolds(w.modes, now, m);
    var batches := Taken(w, now, limit).batches;
    assert Joined(batches) == DueModes(w.modes, now);
    JoinedHolds(batches, m);
    b :| b in batches && m in b.modes;
    assert InTime(b, now);
  }

  lemma {:induction false} DueHolds(ms: seq<Mmode>, now: int, m: Mmode)
    requires m in ms && m.at <= now
    ensures m in DueModes(ms, now)
  {
    if m != ms[0] {
      DueHolds(ms[1..], now, m);
    }
  }

  /** A due mode goes out, with its batch, ahead of everything of that priority that is queued for later. */
  lemma {:induction false} DueModeFirst(ws: seq<Waiting>, c: nat, m: Mmode, flushNow: int, limit: nat, q: seq<Timed>,
                                        turns: seq<Turn>, pace: Pace)
    returns (b: Batch)
    requires c < |ws| && m in ws[c].modes && m.at <= flushNow
    requires Sorted(TimedCmp, q) && TurnsClocked(turns, pace.ts)
    ensures m in b.modes && b in Taken(ws[c], flushNow, limit).batches
    ensures var log, mode := Log(turns, FlushedAll(ws, flushNow, limit, q), pace), ModeCommand(ws[c].name, b);
      forall j :: 0 <= j < |log| && log[j].prio == PRIO_CHANNEL_PROTECTION && log[j].at > m.at ==> mode in log[..j]
  {
    b := BatchOf(ws[c], m, flushNow, limit);
    FlushedQueues(ws, c, b, flushNow, limit, q);
    InOrder(turns, FlushedAll(ws, flushNow, limit, q), pace, ModeCommand(ws[c].name, b));
  }

  /** The state the command leaves behind: a `+b` waits on channel `c`, the KICK is on the queue; since then more
      modes and more commands may have come in. */
  ghost predicate AfterBanKick(sc: Scene, nick: string, now: int, reason: Option<string>, ws: seq<Waiting>, c: nat,
                               q: seq<Timed>, ms0: seq<Mmode>, moreModes: seq<Mmode>, q0: seq<Timed>,
                               moreCommands: seq<Timed>) {
    && Addressed(sc.users) && c < |ws| && Sorted(TimedCmp, q0)
    && ws[c].modes == ModesArrive(moreModes, Banned(sc, nick, now - 1, ms0))
    && q == QueueAll(moreCommands, Kicked(KickOf(sc, ws[c].name, nick, now, reason), q0))
  }

  /** End to end: when a ban-kick with a positive ban time finds a mask, the MODE command that holds its `+b` leaves
      the queue before the KICK does, and before anything else of that priority queued for then or later. */
  lemma {:induction false} BanBeforeKick(sc: Scene, nick: string, now: int, reason: Option<string>,
                                         ws: seq<Waiting>, c: nat,
                      q: seq<Timed>, ms0: seq<Mmode>, moreModes: seq<Mmode>, q0: seq<Timed>, moreCommands: seq<Timed>,
                      flushNow: int, limit: nat, turns: seq<Turn>, pace: Pace)
    returns (b: Batch)
    requires AfterBanKick(sc, nick, now, reason, ws, c, q, ms0, moreModes, q0, moreCommands)
    requires MaskFor(sc, nick).Some? && sc.normalBan > 0
    requires now <= flushNow && TurnsClocked(turns, pace.ts)
    ensures Mmode(now - 1, "+b", MaskFor(sc, nick)) in b.modes && b in Taken(ws[c], flushNow, limit).batches
    ensures var log, mode := Log(turns, FlushedAll(ws, flushNow, limit, q), pace), ModeCommand(ws[c].name, b);
      && (forall j :: 0 <= j < |log| && log[j].prio == PRIO_CHANNEL_PROTECTION && log[j].at >= now ==> mode in log[..j])
      && (forall j :: 0 <= j < |log| && Some(log[j]) == KickOf(sc, ws[c].name, nick, now, reason) ==> mode in log[..j])
  {
    var plus := Mmode(now - 1, "+b", MaskFor(sc, nick));
    var minus := Mmode(now - 1 + sc.normalBan, "-b", MaskFor(sc, nick));
    InsertedHolds(MmodeCmp, plus, ms0);
    InsertedHolds(MmodeCmp, minus, Inserted(MmodeCmp, plus, ms0));
    ModesArriveHolds(moreModes, Banned(sc, nick, now - 1, ms0), plus);
    var kick := KickOf(sc, ws[c].name, nick, now, reason);
    if kick.Some? {
      InsertedKeeps(kick.value, q0);
    }
    QueueAllSorted(moreCommands, Kicked(kick, q0));
    b := DueModeFirst(ws, c, plus, flushNow, limit, q, turns, pace);
  }

  lemma {:induction false} QueueAllSorted(xs: seq<Timed>, q: seq<Timed>)
    requires Sorted(TimedCmp, q)
    ensures Sorted(TimedCmp, QueueAll(xs, q))
    decreases xs
  {
    if xs != [] {
      InsertedKeeps(xs[0], q);
      QueueAllSorted(xs[1..], Inserted(TimedCmp, xs[0], q));
    }
  }
}
