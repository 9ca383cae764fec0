/** The second half of the MODE loop of parse.c, step by step, and the functions of ds.c that it calls. */
module ModeActions {
  import opened Chars
  import opened Options
  import opened SortedQueue
  import opened Scheduler
  import opened Batching
  import opened Delivery
  import opened ModeReactions
  import Wildcards
  import C = ChanModes
  import R = ModeReading

  /** `mmode_new` for one mode after the other. */
  function Waits(modes: seq<Mmode>, waiting: seq<Mmode>): seq<Mmode> {
    if modes == [] then waiting else Waits(modes[1..], Inserted(MmodeCmp, modes[0], waiting))
  }

  lemma {:induction false} WaitsConcat(x: seq<Mmode>, y: seq<Mmode>, waiting: seq<Mmode>)
    ensures Waits(x + y, waiting) == Waits(y, Waits(x, waiting))
    decreases x
  {
    if x == [] {
      assert x + y == y;
    } else {
      assert (x + y)[1..] == x[1..] + y;
      WaitsConcat(x[1..], y, Inserted(MmodeCmp, x[0], waiting));
    }
  }

  lemma {:induction false} ChangedFirst(ms: seq<Member>, nick: string, op: Option<bool>, voice: Option<bool>, i: nat)
    requires i <= |ms| && forall j :: 0 <= j < i ==> !SameText(ms[j].nick, nick)
    requires i < |ms| ==> SameText(ms[i].nick, nick)
    ensures Changed(ms, nick, op, voice) == if i < |ms| then ms[i := Moded(ms[i], op, voice)] else ms
  {
    if i > 0 {
      assert ms == [ms[0]] + ms[1..];
      ChangedFirst(ms[1..], nick, op, voice, i - 1);
      hide SameText, Moded;
    }
  }

  lemma WithoutLater(bans: seq<string>, i: nat)
    requires 0 < i <= |bans|
    ensures bans == [bans[0]] + bans[1..]
    ensures i < |bans| ==> [bans[0]] + (bans[1..][..i - 1] + bans[1..][i..]) == bans[..i] + bans[i + 1..]
  {
  }

  lemma {:induction false} DeletedFirst(bans: seq<string>, ban: string, i: nat)
    requires i <= |bans| && forall j :: 0 <= j < i ==> !SameText(bans[j], ban)
    requires i < |bans| ==> SameText(bans[i], ban)
    ensures BanDeleted(bans, ban) == if i < |bans| then bans[..i] + bans[i + 1..] else bans
  {
    hide SameText;
    if i > 0 {
      DeletedFirst(bans[1..], ban, i - 1);
      WithoutLater(bans, i);
    }
  }

  /** What the loop changes in the channel and in the queues. */
  class Room {
    var members: seq<Member>
    var bans: seq<string>
    var iAmOp: bool
    var requestOp: Option<int>
    var setMode: bool
    var mmodes: seq<Mmode>
    var timeds: seq<Timed>

    constructor (members: seq<Member>, bans: seq<string>)
      ensures TheGuard(0, false) == Guard(members, bans, false, None, false, 0, false) && mmodes == [] && timeds == []
    {
      this.members, this.bans, iAmOp, requestOp, setMode := members, bans, false, None, false;
      mmodes, timeds := [], [];
    }

    function TheGuard(deops: nat, sync: bool): Guard
      reads this
    {
      Guard(members, bans, iAmOp, requestOp, setMode, deops, sync)
    }

    /** `changeuser` */
    method ChangeUser(nick: string, op: Option<bool>, voice: Option<bool>)
      modifies this`members
      ensures members == Changed(old(members), nick, op, voice)
    {
      var i := 0;
      while i < |members| && !SameText(members[i].nick, nick)
        invariant 0 <= i <= |members| && forall j :: 0 <= j < i ==> !SameText(members[j].nick, nick)
      {
        i := i + 1;
      }
      ChangedFirst(members, nick, op, voice, i);
      hide Changed;
      if i < |members| {
        members := members[i := Moded(members[i], op, voice)];
      }
    }

    /** `ischanopless` */
    method IsOpless() returns (r: bool)
      ensures r <==> Opless(members)
    {
      var i := 0;
      while i < |members|
        invariant 0 <= i <= |members| && forall j :: 0 <= j < i ==> !members[j].op
      {
        if members[i].op {
          return false;
        }
        i := i + 1;
      }
      return true;
    }

    /** `addnewchannelban` */
    method AddBan(ban: string)
      modifies this`bans
      ensures bans == BanAdded(old(bans), ban)
    {
      var i := 0;
      while i < |bans|
        invariant 0 <= i <= |bans| && bans == old(bans) && forall j :: 0 <= j < i ==> !SameText(bans[j], ban)
      {
        if SameText(bans[i], ban) {
          return;
        }
        i := i + 1;
      }
      bans := bans + [ban];
    }

    /** `delchannelban` */
    method DelBan(ban: string)
      modifies this`bans
      ensures bans == BanDeleted(old(bans), ban)
    {
      var i := 0;
      while i < |bans| && !SameText(bans[i], ban)
        invariant 0 <= i <= |bans| && forall j :: 0 <= j < i ==> !SameText(bans[j], ban)
      {
        i := i + 1;
      }
      DeletedFirst(bans, ban, i);
      hide BanDeleted;
      if i < |bans| {
        bans := bans[..i] + bans[i + 1..];
      }
    }

    /** `mmode_new` */
    method SetMode(m: Mmode)
      modifies this`mmodes
      ensures mmodes == Waits([m], old(mmodes))
    {
      assert [m][1..] == [];
      mmodes := Inserted(MmodeCmp, m, mmodes);
    }

    /** `timed_new` */
    method Send(t: Timed)
      modifies this`timeds
      ensures timeds == QueueAll([t], old(timeds))
    {
      assert [t][1..] == [];
      timeds := Inserted(TimedCmp, t, timeds);
    }

    /** What was there before, and what an answer asks for on top. */
    ghost predicate Done(x: Answer, mmodes0: seq<Mmode>, timeds0: seq<Timed>, deops: nat, sync: bool, skips: bool)
      reads this
    {
      && TheGuard(deops, sync) == x.guard && skips == x.skips
      && mmodes == Waits(x.modes, mmodes0) && timeds == QueueAll(x.commands, timeds0)
    }

    /** The state of the loop in which change `h` is answered. */
    ghost function Ready(st: Setting, deops: nat, sync: bool, h: R.Handled): Guard
      reads this
    {
      Booked(st, TheGuard(deops, sync), h)
    }

    method OnOp(st: Setting, a: Author, nick: string, ghost deops: nat, ghost sync: bool) returns (skips: bool)
      modifies this`members, this`iAmOp, this`mmodes
      ensures Done(OpAnswer(st, a, old(Ready(st, deops, sync, R.Handled(C.Op, nick))), nick),
                   old(mmodes), old(timeds), deops, sync, skips)
    {
      ChangeUser(nick, Some(true), None);
      hide Changed, SameText, Inserted;
      if SameText(st.me, nick) {
        iAmOp := true;
        return true;
      }
      if !iAmOp {
        return true;
      }
      if 'u' in st.flags && nick !in st.allowed {
        if a.trusted {
          return true;
        }
        SetMode(Mmode(st.now, "-o", Some(nick)));
      }
      return false;
    }

    /** The book after a deop. */
    method NoteDeop(st: Setting, nick: string, ghost deops: nat, ghost sync: bool)
      modifies this`members, this`iAmOp, this`requestOp, this`timeds
      ensures TheGuard(deops, sync) == old(Ready(st, deops, sync, R.Handled(C.Deop, nick)))
      ensures timeds == QueueAll([Whois(st, nick)], old(timeds))
    {
      ChangeUser(nick, Some(false), None);
      Send(Whois(st, nick));
      var opless := IsOpless();
      hide Changed, SameText, Inserted, Opless, Whois;
      if opless {
        requestOp := Some(st.now + REQUESTOP_DELAY);
      }
      if SameText(st.me, nick) {
        iAmOp := false;
      }
    }

    method OnDeop(st: Setting, a: Author, nick: string, deops: nat, ghost sync: bool) returns (skips: bool, n: nat)
      modifies this`members, this`iAmOp, this`requestOp, this`mmodes, this`timeds
      ensures Done(DeopAnswer(st, a, old(Ready(st, deops, sync, R.Handled(C.Deop, nick))), nick),
                   old(mmodes), old(timeds), n, sync, skips)
    {
      NoteDeop(st, nick, deops, sync);
      hide Room.Ready, Whois, Inserted;
      if a.trusted || !iAmOp {
        return true, deops;
      }
      if 'D' in st.flags && nick in st.allowed {
        SetMode(Mmode(st.now, "+o", Some(nick)));
      }
      return false, deops + 1;
    }

    method OnBan(st: Setting, a: Author, mask: string, ghost deops: nat, ghost sync: bool) returns (skips: bool)
      modifies this`bans, this`mmodes, this`timeds
      ensures Done(BanAnswer(st, a, old(Ready(st, deops, sync, R.Handled(C.Ban, mask))), mask),
                   old(mmodes), old(timeds), deops, sync, skips)
    {
      AddBan(mask);
      var matched := Wildcards.WildMatch(mask, st.myMask);
      hide BanAdded, SameText, Inserted, Wildcards.Commits, KickForBan;
      if matched != 0 {
        if a.trusted {
          return true;
        }
        if iAmOp && 'b' in st.flags {
          if !SameText(st.me, a.nick) && !a.server {
            Send(KickForBan(st, a, mask));
          }
          SetMode(Mmode(st.now, "-b", Some(mask)));
        }
      }
      return false;
    }

    method OnUnban(st: Setting, a: Author, mask: string, ghost deops: nat, sync: bool)
      returns (skips: bool, again: bool)
      modifies this`bans, this`mmodes
      ensures Done(UnbanAnswer(st, a, old(Ready(st, deops, sync, R.Handled(C.Unban, mask))), mask),
                   old(mmodes), old(timeds), deops, again, skips)
    {
      DelBan(mask);
      hide BanDeleted, SameText, Inserted;
      if iAmOp && 'e' in st.flags && mask in st.permanent {
        if a.trusted {
          return true, sync;
        }
        SetMode(Mmode(st.now, "+b", Some(mask)));
        return false, true;
      }
      return false, sync;
    }

    method OnOther(st: Setting, a: Author, h: R.Handled, ghost deops: nat, ghost sync: bool)
      requires h.kind !in {C.Op, C.Deop, C.Ban, C.Unban}
      modifies this`members, this`setMode
      ensures Done(AnswerTo(st, a, old(Ready(st, deops, sync, h)), h), mmodes, timeds, deops, sync, false)
    {
      if h.kind == C.Voice {
        ChangeUser(h.target, None, Some(true));
      } else if h.kind == C.Devoice {
        ChangeUser(h.target, None, Some(false));
      } else if (h.kind == C.WithParams || h.kind == C.WithoutParams) && !SameText(st.me, a.nick) {
        setMode := true;
      }
      hide Changed, SameText, Opless;
    }

    /** The switch over the kinds of changes. */
    method Respond(st: Setting, a: Author, h: R.Handled, deops: nat, sync: bool)
      returns (skips: bool, n: nat, again: bool)
      modifies this`members, this`bans, this`iAmOp, this`requestOp, this`setMode, this`mmodes, this`timeds
      ensures Done(AnswerTo(st, a, old(Ready(st, deops, sync, h)), h), old(mmodes), old(timeds), n, again, skips)
    {
      hide OpAnswer, DeopAnswer, BanAnswer, UnbanAnswer, Room.Ready, Waits, QueueAll;
      skips, n, again := false, deops, sync;
      match h.kind {
        case Op => skips := OnOp(st, a, h.target, deops, sync);
        case Deop => skips, n := OnDeop(st, a, h.target, deops, sync);
        case Ban => skips := OnBan(st, a, h.target, deops, sync);
        case Unban => skips, again := OnUnban(st, a, h.target, deops, sync);
        case _ => OnOther(st, a, h, deops, sync);
      }
    }

    /** One round: the switch, and then the look at the deops. */
    method Act(st: Setting, a: Author, h: R.Handled, deops: nat, sync: bool) returns (n: nat, again: bool)
      modifies this`members, this`bans, this`iAmOp, this`requestOp, this`setMode, this`mmodes, this`timeds
      ensures var x := Round(st, a, old(TheGuard(deops, sync)), h);
        && TheGuard(n, again) == x.guard
        && mmodes == Waits(x.modes, old(mmodes)) && timeds == QueueAll(x.commands, old(timeds))
    {
      var skips;
      ghost var x := AnswerTo(st, a, Ready(st, deops, sync, h), h);
      ghost var was, queued := mmodes, timeds;
      skips, n, again := Respond(st, a, h, deops, sync);
      WaitsConcat(x.modes, [Punishment(st, a)], was);
      QueueAllConcat(x.commands, [Notice(st, a)], queued);
      hide AnswerTo, Booked, SameText, Waits, QueueAll, Punishment, Notice;
      if !skips && n > MASSMODE_LIMIT && '@' in a.userhost && !SameText(st.me, a.nick) && !a.trusted {
        if iAmOp && 'm' in st.flags && !a.server {
          SetMode(Punishment(st, a));
          Send(Notice(st, a));
          n := 0;
        }
      }
    }

    /** The loop over a line, and the permanent bans set once more if it took one away. */
    method ActOnLine(st: Setting, a: Author, log: seq<R.Handled>, permanents: seq<string>)
      modifies this
      ensures var x := Rounds(st, a, old(TheGuard(0, false)), log);
        var again := if x.guard.sync then Bans(st.now, permanents) else [];
        && TheGuard(x.guard.deops, x.guard.sync) == x.guard
        && mmodes == Waits(x.modes + again, old(mmodes)) && timeds == QueueAll(x.commands, old(timeds))
    {
      var deops: nat, sync := 0, false;
      ghost var g, waiting, queued := TheGuard(0, false), mmodes, timeds;
      var i := 0;
      hide Round, Waits, QueueAll, Room.TheGuard;
      NothingYet(waiting, queued);
      while i < |log|
        invariant 0 <= i <= |log|
        invariant var x := Rounds(st, a, g, log[..i]);
          && TheGuard(deops, sync) == x.guard
          && mmodes == Waits(x.modes, waiting) && timeds == QueueAll(x.commands, queued)
      {
        NextRound(st, a, g, log, i, waiting, queued);
        deops, sync := Act(st, a, log[i], deops, sync);
        i := i + 1;
      }
      assert log[..i] == log;
      Last(deops, sync);
      ghost var x := Rounds(st, a, g, log);
      assert x.modes + [] == x.modes;
      if sync {
        SyncPermBans(st.now, permanents);
        WaitsConcat(x.modes, Bans(st.now, permanents), waiting);
      }
    }

    lemma Last(deops: nat, sync: bool)
      ensures TheGuard(deops, sync).deops == deops && TheGuard(deops, sync).sync == sync
    {
    }

    /** `syncpermbans` */
    method SyncPermBans(now: int, permanents: seq<string>)
      modifies this`mmodes
      ensures mmodes == Waits(Bans(now, permanents), old(mmodes))
    {
      var i := 0;
      ghost var all := Bans(now, permanents);
      while i < |permanents|
        invariant 0 <= i <= |permanents| && Waits(all, old(mmodes)) == Waits(all[i..], mmodes)
      {
        assert all[i..] == [all[i]] + all[i + 1..];
        WaitsConcat([all[i]], all[i + 1..], mmodes);
        SetMode(Mmode(now, "+b", Some(permanents[i])));
        i := i + 1;
      }
    }
  }

  function Bans(now: int, masks: seq<string>): (r: seq<Mmode>)
    ensures |r| == |masks| && forall i :: 0 <= i < |masks| ==> r[i] == Mmode(now, "+b", Some(masks[i]))
  {
    seq(|masks|, i requires 0 <= i < |masks| => Mmode(now, "+b", Some(masks[i])))
  }

  lemma NothingYet(waiting: seq<Mmode>, queued: seq<Timed>)
    ensures Waits([], waiting) == waiting && QueueAll([], queued) == queued
  {
  }

  lemma NextRound(st: Setting, a: Author, g: Guard, log: seq<R.Handled>, i: nat, waiting: seq<Mmode>,
                  queued: seq<Timed>)
    requires i < |log|
    ensures var before, after := Rounds(st, a, g, log[..i]), Rounds(st, a, g, log[..i + 1]);
      var x := Round(st, a, before.guard, log[i]);
      && after.guard == x.guard
      && Waits(after.modes, waiting) == Waits(x.modes, Waits(before.modes, waiting))
      && QueueAll(after.commands, queued) == QueueAll(x.commands, QueueAll(before.commands, queued))
  {
    assert log[..i + 1][..i] == log[..i];
    var before := Rounds(st, a, g, log[..i]);
    var x := Round(st, a, before.guard, log[i]);
    WaitsConcat(before.modes, x.modes, waiting);
    QueueAllConcat(before.commands, x.commands, queued);
    hide Round, Waits, QueueAll;
  }
}
