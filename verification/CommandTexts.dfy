/** The commands that the bot writes, read back word by word; whom a ban-kick is for, and whom it kicks. */
module CommandTexts {
  import opened Chars
  import opened Options
  import opened Words
  import opened Scheduler
  import opened Batching
  import opened BanMasks
  import opened BanKick
  import Holding
  import M = ModeReactions
  import R = ModeReading

  // ---------------------------------------------------------------- whom the command is for

  /** The user found is the first of that name, letter case aside, and one is found if there is one. */
  lemma {:induction false} FirstOfName(users: seq<ChanUser>, nick: string)
    ensures match FindUser(users, nick)
      case None => forall i :: 0 <= i < |users| ==> !SameText(users[i].nick, nick)
      case Some(u) => exists i :: 0 <= i < |users| && users[i] == u && SameText(u.nick, nick)
                                  && forall j :: 0 <= j < i ==> !SameText(users[j].nick, nick)
  {
    if users != [] && !SameText(users[0].nick, nick) {
      FirstOfName(users[1..], nick);
      var u := FindUser(users[1..], nick);
      if u.Some? {
        var i :| 0 <= i < |users[1..]| && users[1..][i] == u.value
                 && forall j :: 0 <= j < i ==> !SameText(users[1..][j].nick, nick);
        forall j | 0 <= j < i + 1 ensures !SameText(users[j].nick, nick) {
          assert j > 0 ==> users[j] == users[1..][j - 1];
        }
        assert users[i + 1] == u.value;
      } else {
        forall i | 0 <= i < |users| ensures !SameText(users[i].nick, nick) {
          assert i > 0 ==> users[i] == users[1..][i - 1];
        }
      }
    }
  }

  /** What is banned is the nick, and the user and the host that the first `@` separates. */
  lemma {:induction false} TargetParts(u: ChanUser)
    requires u.userhost.Some? && '@' in u.userhost.value
    ensures var w := Target(u); w.nick == u.nick && w.user + "@" + w.host == u.userhost.value && '@' !in w.user
  {
    var h := u.userhost.value;
    var at := IndexOf(h, '@');
    assert at < |h| by {
      assert h[..|h|] == h;
    }
    assert h == h[..at] + [h[at]] + h[at + 1..];
  }

  /** The first word of the command line and, if anything follows it, the rest. */
  lemma {:induction false} AskedIs(nick: string, gap: nat, reason: string)
    requires R.GoodWord(nick) && (gap == 0 ==> reason == "") && (reason != "" ==> reason[0] != SPACE)
    ensures BanKick.Asked(nick + Spaces(gap) + reason) == Some((nick, if reason == "" then None else Some(reason)))
  {
    var line := nick + Spaces(gap) + reason;
    SpacesAre(gap);
    assert line[0..] == line;
    WordThenGap(line, 0, nick, Spaces(gap), reason);
  }

  predicate AllSpace(s: string) {
    forall i :: 0 <= i < |s| ==> s[i] == ' ' || s[i] == '\t' || 10 <= s[i] as int <= 13
  }

  /** Exactly the white space at the end goes. */
  lemma {:induction false} StrippedEnd(s: string)
    ensures var r := Stripped(s);
      && r <= s && AllSpace(s[|r|..]) && (r != "" ==> !AllSpace([r[|r| - 1]]))
  {
    if s != "" && IsSpace(s[|s| - 1]) {
      var t := s[..|s| - 1];
      StrippedEnd(t);
      assert s[|Stripped(t)|..] == t[|Stripped(t)|..] + [s[|s| - 1]];
    } else if s != "" {
      var last := [s[|s| - 1]];
      assert last[0] == s[|s| - 1];
    }
  }

  // ---------------------------------------------------------------- the texts

  /** What a line says: three words, and what is left. */
  predicate Says(line: string, a: string, b: string, c: string, left: string) {
    var p := Next(line, 0, STRINGLEN);
    && Word(line, 0, STRINGLEN) == a && 0 <= p <= |line| && Word(line, p, STRINGLEN) == b
    && SaysOn(line, p, c, left)
  }

  /** Behind the word at `pos` comes one more, and what is left. */
  predicate SaysOn(line: string, pos: nat, c: string, left: string)
    requires pos <= |line|
  {
    var q := Next(line, pos, STRINGLEN);
    0 <= q <= |line| && Word(line, q, STRINGLEN) == c && Leaves(line, q, left)
  }

  predicate Leaves(line: string, pos: nat, left: string)
    requires pos <= |line|
  {
    var r := Next(line, pos, STRINGLEN);
    0 <= r <= |line| && line[r..] == left
  }

  lemma WordAt(line: string, pos: nat, w: string, tail: string)
    requires pos <= |line| && line[pos..] == w + " " + tail && R.GoodWord(w) && (tail != "" ==> tail[0] != SPACE)
    ensures Word(line, pos, STRINGLEN) == w && Next(line, pos, STRINGLEN) == pos + |w| + 1
    ensures pos + |w| + 1 <= |line| && line[pos + |w| + 1..] == tail
  {
    WordThenGap(line, pos, w, " ", tail);
  }

  lemma LastWord(line: string, pos: nat, c: string, left: string)
    requires pos <= |line| && line[pos..] == c + " " + left && R.GoodWord(c) && left != "" && left[0] != SPACE
    ensures Word(line, pos, STRINGLEN) == c && Leaves(line, pos, left)
  {
    WordAt(line, pos, c, left);
    hide Word, Next;
  }

  lemma LastTwo(line: string, pos: nat, b: string, c: string, left: string)
    requires pos <= |line| && line[pos..] == b + " " + (c + " " + left)
    requires R.GoodWord(b) && R.GoodWord(c) && left != "" && left[0] != SPACE
    ensures Word(line, pos, STRINGLEN) == b && SaysOn(line, pos, c, left)
  {
    hide Word, Next;
    WordAt(line, pos, b, c + " " + left);
    LastWord(line, pos + |b| + 1, c, left);
  }

  lemma WordsSay(line: string, a: string, b: string, c: string, left: string)
    requires line == a + " " + (b + " " + (c + " " + left))
    requires R.GoodWord(a) && R.GoodWord(b) && R.GoodWord(c) && left != "" && left[0] != SPACE
    ensures Says(line, a, b, c, left)
  {
    hide Word, Next, SaysOn, Leaves;
    assert line[0..] == line;
    WordAt(line, 0, a, b + " " + (c + " " + left));
    LastTwo(line, |a| + 1, b, c, left);
  }

  lemma Shorter(s: string)
    requires |s| < WRITE_BUFFER_LENGTH
    ensures Truncated(s, WRITE_BUFFER_LENGTH) == s
  {
  }

  /** A KICK names the channel, then the user, then the reason. */
  lemma {:induction false} KickSays(name: string, nick: string, reason: string)
    requires R.GoodWord(name) && R.GoodWord(nick) && |name| + |nick| + |reason| + 8 < WRITE_BUFFER_LENGTH
    ensures Says(KickLine(name, nick, reason), "KICK", name, nick, ":" + reason)
  {
    KickLineIs(name, nick, reason);
    WordsSay(KickLine(name, nick, reason), "KICK", name, nick, ":" + reason);
    hide Says, KickLine;
  }

  lemma KickLineIs(name: string, nick: string, reason: string)
    requires |name| + |nick| + |reason| + 8 < WRITE_BUFFER_LENGTH
    ensures KickLine(name, nick, reason) == "KICK" + " " + (name + " " + (nick + " " + (":" + reason)))
  {
    var line := "KICK " + name + " " + nick + " :" + reason;
    Shorter(line);
    hide Truncated;
    assert line == "KICK" + " " + (name + " " + (nick + " " + (":" + reason)));
  }

  /** The KICK of a ban-kick: for the user found, by the reason given, else by that of the channel, else in the bot's
      name; for the time asked for, among what protects the channel, and past the barrier. */
  lemma {:induction false} KickFor(sc: Scene, name: string, nick: string, when: int, reason: Option<string>)
    ensures match FindUser(sc.users, nick)
      case None => KickOf(sc, name, nick, when, reason) == None
      case Some(u) =>
        if u.userhost.None? then KickOf(sc, name, nick, when, reason) == None
        else
          match KickOf(sc, name, nick, when, reason)
          case None => false
          case Some(t) =>
            && t.at == when && t.prio == PRIO_CHANNEL_PROTECTION && Holding.MayPass(t)
            && (reason.Some? ==> t.command == KickLine(name, u.nick, Stripped(reason.value)))
            && (reason.None? && sc.kickreason.Some? ==> t.command == KickLine(name, u.nick, sc.kickreason.value))
            && (reason.None? && sc.kickreason.None? ==> t.command == KickLine(name, u.nick, sc.setting.me.nick))
  {
  }

  /** MODE commands get past the barrier, too, and rank with the kicks. */
  lemma {:induction false} ModesMayPass(name: string, b: Batch)
    ensures Holding.MayPass(ModeCommand(name, b)) && ModeCommand(name, b).prio == PRIO_CHANNEL_PROTECTION
    ensures ModeCommand(name, b).at == b.at
  {
  }

  /** Whoever bans the bot is kicked from that channel and told which mask it was. */
  lemma {:induction false} KickForBanSays(st: M.Setting, a: M.Author, mask: string)
    requires R.GoodWord(st.channel) && R.GoodWord(a.nick)
    requires |st.channel| + |a.nick| + |mask| + 60 < WRITE_BUFFER_LENGTH
    ensures var t := M.KickForBan(st, a, mask);
      && Says(t.command, "KICK", st.channel, a.nick, ":do NOT ban " + mask + ", that's me!")
      && t.at == st.now && Holding.MayPass(t)
  {
    var reason := "do NOT ban " + mask + ", that's me!";
    assert |reason| == |mask| + 23 && ":" + reason == ":do NOT ban " + mask + ", that's me!";
    KickSays(st.channel, a.nick, reason);
    KickForBanIs(st, a, mask, reason);
    hide Says, KickLine, M.KickForBan;
  }

  lemma KickForBanIs(st: M.Setting, a: M.Author, mask: string, reason: string)
    requires reason == "do NOT ban " + mask + ", that's me!"
    ensures var t := M.KickForBan(st, a, mask);
      t.command == KickLine(st.channel, a.nick, reason) && t.at == st.now && Holding.MayPass(t)
  {
    hide Truncated;
    var line := "KICK " + st.channel + " " + a.nick + " :";
    assert line + reason == "KICK " + st.channel + " " + a.nick + " :do NOT ban " + mask + ", that's me!";
  }

  /** What is asked after a deop. */
  lemma {:induction false} WhoisSays(st: M.Setting, nick: string)
    requires R.GoodWord(nick)
    ensures var t := M.Whois(st, nick);
      t.at == st.now && Word(t.command, 0, STRINGLEN) == "WHOIS" && Leaves(t.command, 0, nick)
  {
    var line := "WHOIS" + " " + nick;
    Shorter(line);
    assert line == "WHOIS " + nick && line[0..] == line;
    WordAt(line, 0, "WHOIS", nick);
  }

  /** How a punishment is announced: by notice, or by message with flag `m`, to the one who is punished, three seconds
      later. */
  lemma {:induction false} NoticeSays(st: M.Setting, a: M.Author)
    requires R.GoodWord(a.nick)
    ensures var t := M.Notice(st, a);
      && t.at == st.now + 3 && t.prio == PRIO_NOTICE
      && Word(t.command, 0, STRINGLEN) == (if st.byMessage then "PRIVMSG" else "NOTICE")
      && Leaves(t.command, 0, a.nick + " :do NOT deop >3 users at a time")
  {
    var verb, text := if st.byMessage then "PRIVMSG" else "NOTICE", ":do NOT deop >3 users at a time";
    NoticeIs(st, a, verb, text);
    var line := verb + " " + (a.nick + " " + text);
    Shorter(line);
    assert line[0..] == line && a.nick + " " + text == a.nick + " :do NOT deop >3 users at a time";
    WordAt(line, 0, verb, a.nick + " " + text);
    hide M.Notice, Word, Next;
  }

  lemma NoticeIs(st: M.Setting, a: M.Author, verb: string, text: string)
    requires verb == (if st.byMessage then "PRIVMSG" else "NOTICE") && text == ":do NOT deop >3 users at a time"
    ensures var t := M.Notice(st, a);
      && t.at == st.now + 3 && t.prio == PRIO_NOTICE
      && t.command == Truncated(verb + " " + (a.nick + " " + text), WRITE_BUFFER_LENGTH)
  {
    hide Truncated;
    if st.byMessage {
      TwoSpaces("PRIVMSG", "PRIVMSG ", a.nick);
    } else {
      TwoSpaces("NOTICE", "NOTICE ", a.nick);
    }
  }

  lemma TwoSpaces(verb: string, wide: string, nick: string)
    requires wide == verb + " "
    ensures verb + " " + (nick + " " + ":do NOT deop >3 users at a time")
      == wide + nick + " :do NOT deop >3 users at a time"
  {
    var text, spaced := ":do NOT deop >3 users at a time", " :do NOT deop >3 users at a time";
    assert " " + text == spaced;
    Joined3(wide, nick, " ", text);
  }

  lemma Joined3(a: string, b: string, c: string, d: string)
    ensures a + (b + c + d) == a + b + (c + d)
  {
  }
}
