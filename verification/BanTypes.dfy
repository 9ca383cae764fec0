/** What the seven ban types of a channel mean: whom the mask of each hits, and in which order `safeban` tries them. */
module BanTypes {
  import opened Chars
  import opened Options
  import opened Wildcards
  import opened BanMasks

  // ---------------------------------------------------------------- whom a mask hits

  /** Plain text in front of a mark that the rest of the string holds in one place only takes what stands ahead of that
      place, letter case aside. */
  lemma ShownPart(p: string, m: nat, q: nat, s: string, n: nat, r: nat, text: string, other: string)
    requires Ordinary(text) && NoBackslash(text, 0)
    requires m <= q <= |p| && p[m..q] == text && n <= r <= |s| && s[n..r] == other
    requires if q < |p| then r < |s| && p[q] == s[r] && (s[r] == '!' || s[r] == '@') else r == |s|
    requires q < |p| ==> forall i :: n <= i < |s| && i != r ==> s[i] != s[r]
    ensures Matches(p, m, s, n) <==> SameText(text, other) && Matches(p, q, s, r)
  {
    PlainText(p, m, q, text);
    PlainRun(p, m, s, n, q - m);
    SameAlong(p, m, q, s, n, r, text, other);
    hide Matches, Along, SameText;
    if q < |p| && n + |text| <= |s| && n + |text| != r {
      OnlyAtMark(p, q, s, n + |text|, r);
    } else if q == |p| && n + |text| <= |s| {
      AtEnd(p, s, n + |text|);
    }
  }

  lemma PlainText(p: string, m: nat, q: nat, text: string)
    requires Ordinary(text) && NoBackslash(text, 0) && m <= q <= |p| && p[m..q] == text
    ensures forall i :: m <= i < q ==> Plain(p[i])
  {
    forall i | m <= i < q ensures Plain(p[i]) {
      assert p[i] == p[m..q][i - m] && text[i - m] in text;
    }
  }

  lemma SameAlong(p: string, m: nat, q: nat, s: string, n: nat, r: nat, text: string, other: string)
    requires m <= q <= |p| && p[m..q] == text && n <= r <= |s| && s[n..r] == other
    ensures SameText(text, other) <==> Along(p, m, s, n, q - m) && n + |text| == r
  {
    if n + |text| == r {
      assert forall i :: m <= i < q ==> p[i] == text[i - m] && s[i - m + n] == other[i - m];
      assert forall k :: 0 <= k < |text| ==> p[m + k] == text[k] && s[n + k] == other[k];
    }
  }

  lemma AtEnd(p: string, s: string, n: nat)
    requires n <= |s|
    ensures Matches(p, |p|, s, n) <==> n == |s|
  {
  }

  lemma OnlyAtMark(p: string, q: nat, s: string, n: nat, r: nat)
    requires q < |p| && r < |s| && n <= |s| && n != r && p[q] == s[r] && (s[r] == '!' || s[r] == '@')
    requires n < |s| ==> s[n] != s[r]
    ensures !Matches(p, q, s, n)
  {
    assert n < |s| ==> ToLower(s[n]) != ToLower(s[r]);
  }

  lemma Mark(p: string, q: nat, s: string, r: nat)
    requires q < |p| && r < |s| && p[q] == s[r] && (s[r] == '!' || s[r] == '@')
    ensures Matches(p, q, s, r) <==> Matches(p, q + 1, s, r + 1)
  {
  }

  /** One part of a mask, shown or starred, and the mark behind it, against the part of somebody else. */
  lemma PickField(p: string, m: nat, q: nat, s: string, n: nat, r: nat, shown: bool, text: string, other: string)
    requires Ordinary(text) && (shown ==> NoBackslash(text, 0))
    requires m <= q < |p| && p[m..q] == Part(shown, text) && n <= r < |s| && s[n..r] == other
    requires p[q] == s[r] && (s[r] == '!' || s[r] == '@')
    requires forall i :: n <= i < |s| && i != r ==> s[i] != s[r]
    ensures Matches(p, m, s, n) <==> (shown ==> SameText(text, other)) && Matches(p, q + 1, s, r + 1)
  {
    Mark(p, q, s, r);
    if shown {
      ShownPart(p, m, q, s, n, r, text, other);
    } else {
      assert p[m] == p[m..q][0];
      StarField(p, m, s, n, r);
    }
  }

  lemma PickLast(p: string, m: nat, s: string, n: nat, shown: bool, text: string, other: string)
    requires Ordinary(text) && (shown ==> NoBackslash(text, 0))
    requires m <= |p| && p[m..] == Part(shown, text) && n <= |s| && s[n..] == other
    ensures Matches(p, m, s, n) <==> (shown ==> SameText(text, other))
  {
    if shown {
      assert p[m..|p|] == p[m..] && s[n..|s|] == s[n..];
      ShownPart(p, m, |p|, s, n, |s|, text, other);
    } else {
      assert p[m] == p[m..][0];
      assert Matches(p, m + 1, s, |s|);
    }
  }

  /** A mask of type `t` for `w` and somebody else, `v`, in full. */
  ghost predicate Facing(p: string, s: string, t: int, w: Who, v: Who) {
    && OrdinaryWho(w) && ShowsNoBackslash(t, w)
    && LaidOut(p, Part(UsesNick(t), w.nick), Part(UsesUser(t), w.user), Part(UsesHost(t), w.host))
    && LaidOut(s, v.nick, v.user, v.host)
    && (forall i :: 0 <= i < |s| ==> (s[i] == '!' <==> i == |v.nick|))
    && (forall i :: 0 <= i < |s| ==> (s[i] == '@' <==> i == |v.nick| + 1 + |v.user|))
  }

  lemma PickNick(p: string, s: string, t: int, w: Who, v: Who, q: nat, r: nat)
    requires Facing(p, s, t, w, v) && q == |Part(UsesNick(t), w.nick)| && r == |v.nick|
    ensures Matches(p, 0, s, 0) <==> (UsesNick(t) ==> SameText(w.nick, v.nick)) && Matches(p, q + 1, s, r + 1)
  {
    assert p[0..q] == p[..q] && s[0..r] == s[..r];
    PickField(p, 0, q, s, 0, r, UsesNick(t), w.nick, v.nick);
  }

  lemma PickUser(p: string, s: string, t: int, w: Who, v: Who, m: nat, q: nat, n: nat, r: nat)
    requires Facing(p, s, t, w, v)
    requires m == |Part(UsesNick(t), w.nick)| + 1 && n == |v.nick| + 1
    requires q == m + |Part(UsesUser(t), w.user)| && r == n + |v.user|
    ensures Matches(p, m, s, n) <==> (UsesUser(t) ==> SameText(w.user, v.user)) && Matches(p, q + 1, s, r + 1)
  {
    PickField(p, m, q, s, n, r, UsesUser(t), w.user, v.user);
  }

  lemma PickHost(p: string, s: string, t: int, w: Who, v: Who, m: nat, n: nat)
    requires Facing(p, s, t, w, v)
    requires m == |Part(UsesNick(t), w.nick)| + 1 + |Part(UsesUser(t), w.user)| + 1 && n == |v.nick| + 1 + |v.user| + 1
    ensures Matches(p, m, s, n) <==> (UsesHost(t) ==> SameText(w.host, v.host))
  {
    PickLast(p, m, s, n, UsesHost(t), w.host, v.host);
  }

  /** A mask hits somebody if and only if the parts it shows are theirs, letter case aside. */
  lemma {:induction false} MaskPicks(t: int, w: Who, v: Who)
    requires OrdinaryWho(w) && OrdinaryWho(v) && ShowsNoBackslash(t, w)
    ensures Matches(Mask(t, w), 0, v.Full(), 0)
      <==> (UsesNick(t) ==> SameText(w.nick, v.nick)) && (UsesUser(t) ==> SameText(w.user, v.user))
           && (UsesHost(t) ==> SameText(w.host, v.host))
  {
    MaskFaces(t, w, v);
    AllPicked(Mask(t, w), v.Full(), t, w, v);
  }

  lemma MaskFaces(t: int, w: Who, v: Who)
    requires OrdinaryWho(w) && OrdinaryWho(v) && ShowsNoBackslash(t, w)
    ensures Facing(Mask(t, w), v.Full(), t, w, v)
  {
    Marks(v);
    LayOut(Part(UsesNick(t), w.nick), Part(UsesUser(t), w.user), Part(UsesHost(t), w.host));
    LayOut(v.nick, v.user, v.host);
    hide LaidOut, Part, ShowsNoBackslash, Ordinary;
  }

  lemma AllPicked(p: string, s: string, t: int, w: Who, v: Who)
    requires Facing(p, s, t, w, v)
    ensures Matches(p, 0, s, 0)
      <==> (UsesNick(t) ==> SameText(w.nick, v.nick)) && (UsesUser(t) ==> SameText(w.user, v.user))
           && (UsesHost(t) ==> SameText(w.host, v.host))
  {
    hide Facing, Matches, SameText, Part, UsesNick, UsesUser, UsesHost;
    var m, n := |Part(UsesNick(t), w.nick)| + 1, |v.nick| + 1;
    var q, r := m + |Part(UsesUser(t), w.user)|, n + |v.user|;
    PickNick(p, s, t, w, v, m - 1, n - 1);
    PickUser(p, s, t, w, v, m, q, n, r);
    PickHost(p, s, t, w, v, q + 1, r + 1);
  }

  /** The seven types by name: whom a ban of each hits, for any two users without wildcards and marks. */
  lemma {:induction false} TypesHit(w: Who, v: Who)
    requires OrdinaryWho(w) && OrdinaryWho(v) && BackslashFree(w)
    ensures var nick, user, host := SameText(w.nick, v.nick), SameText(w.user, v.user), SameText(w.host, v.host);
      var s := v.Full();
      && (Matches(Mask(TYPE_HOST, w), 0, s, 0) <==> host)
      && (Matches(Mask(TYPE_USER, w), 0, s, 0) <==> user)
      && (Matches(Mask(TYPE_USER_HOST, w), 0, s, 0) <==> user && host)
      && (Matches(Mask(TYPE_NICK, w), 0, s, 0) <==> nick)
      && (Matches(Mask(TYPE_NICK_HOST, w), 0, s, 0) <==> nick && host)
      && (Matches(Mask(TYPE_NICK_USER, w), 0, s, 0) <==> nick && user)
      && (Matches(Mask(TYPE_NICK_USER_HOST, w), 0, s, 0) <==> nick && user && host)
  {
    MaskPicks(TYPE_HOST, w, v);
    MaskPicks(TYPE_USER, w, v);
    MaskPicks(TYPE_USER_HOST, w, v);
    MaskPicks(TYPE_NICK, w, v);
    MaskPicks(TYPE_NICK_HOST, w, v);
    MaskPicks(TYPE_NICK_USER, w, v);
    MaskPicks(TYPE_NICK_USER_HOST, w, v);
    hide Matches, Mask, SameText;
  }

  /** And what each writes, by its number and whatever the target holds. */
  lemma {:induction false} MasksRead(w: Who)
    ensures Mask(1, w) == "*!*@" + w.host && Mask(2, w) == "*!" + w.user + "@*"
    ensures Mask(3, w) == "*!" + w.user + "@" + w.host && Mask(4, w) == w.nick + "!*@*"
    ensures Mask(5, w) == w.nick + "!*@" + w.host && Mask(6, w) == w.nick + "!" + w.user + "@*"
    ensures Mask(7, w) == w.nick + "!" + w.user + "@" + w.host
  {
  }

  // ---------------------------------------------------------------- which types are tried

  /** The first type of a list that is allowed. */
  ghost function FirstAllowed(ts: seq<int>, w: Who, e: Setting): Option<int> {
    if ts == [] then None else if Allowed(ts[0], w, e) then Some(ts[0]) else FirstAllowed(ts[1..], w, e)
  }

  lemma {:induction false} FullTried(w: Who, e: Setting, tries: nat)
    requires tries >= 1
    ensures Choice(TYPE_NICK_USER_HOST, w, e, tries) == FirstAllowed([TYPE_NICK_USER_HOST], w, e)
    decreases tries
  {
    hide Allowed;
    var none: seq<int> := [];
    assert [TYPE_NICK_USER_HOST][1..] == none;
    if tries > 1 {
      FullTried(w, e, tries - 1);
    }
  }

  lemma OneTried(t: int, ts: seq<int>, w: Who, e: Setting, tries: nat)
    requires IsBanType(t) && tries >= 1 && Choice(Wider(t), w, e, tries - 1) == FirstAllowed(ts, w, e)
    ensures Choice(t, w, e, tries) == FirstAllowed([t] + ts, w, e)
  {
    hide Allowed;
    assert ([t] + ts)[1..] == ts;
  }

  lemma NickUserTried(w: Who, e: Setting, tries: nat)
    requires tries >= 2
    ensures Choice(TYPE_NICK_USER, w, e, tries) == FirstAllowed([TYPE_NICK_USER, TYPE_NICK_USER_HOST], w, e)
  {
    hide Allowed, Choice, FirstAllowed;
    FullTried(w, e, tries - 1);
    OneTried(TYPE_NICK_USER, [TYPE_NICK_USER_HOST], w, e, tries);
    assert [TYPE_NICK_USER] + [TYPE_NICK_USER_HOST] == [TYPE_NICK_USER, TYPE_NICK_USER_HOST];
  }

  lemma NickHostTried(w: Who, e: Setting, tries: nat)
    requires tries >= 3
    ensures Choice(TYPE_NICK_HOST, w, e, tries)
         == FirstAllowed([TYPE_NICK_HOST, TYPE_NICK_USER, TYPE_NICK_USER_HOST], w, e)
  {
    hide Allowed, Choice, FirstAllowed;
    NickUserTried(w, e, tries - 1);
    var rest := [TYPE_NICK_USER, TYPE_NICK_USER_HOST];
    OneTried(TYPE_NICK_HOST, rest, w, e, tries);
    assert [TYPE_NICK_HOST] + rest == [TYPE_NICK_HOST, TYPE_NICK_USER, TYPE_NICK_USER_HOST];
  }

  lemma NickTried(w: Who, e: Setting, tries: nat)
    requires tries >= 4
    ensures Choice(TYPE_NICK, w, e, tries)
         == FirstAllowed([TYPE_NICK, TYPE_NICK_HOST, TYPE_NICK_USER, TYPE_NICK_USER_HOST], w, e)
  {
    hide Allowed, Choice, FirstAllowed;
    NickHostTried(w, e, tries - 1);
    var rest := [TYPE_NICK_HOST, TYPE_NICK_USER, TYPE_NICK_USER_HOST];
    OneTried(TYPE_NICK, rest, w, e, tries);
    assert [TYPE_NICK] + rest == [TYPE_NICK, TYPE_NICK_HOST, TYPE_NICK_USER, TYPE_NICK_USER_HOST];
  }

  lemma UserHostTried(w: Who, e: Setting, tries: nat)
    requires tries >= 2
    ensures Choice(TYPE_USER_HOST, w, e, tries) == FirstAllowed([TYPE_USER_HOST, TYPE_NICK_USER_HOST], w, e)
  {
    hide Allowed, Choice, FirstAllowed;
    FullTried(w, e, tries - 1);
    OneTried(TYPE_USER_HOST, [TYPE_NICK_USER_HOST], w, e, tries);
    assert [TYPE_USER_HOST] + [TYPE_NICK_USER_HOST] == [TYPE_USER_HOST, TYPE_NICK_USER_HOST];
  }

  /** A type that is followed by the pair of user and host. */
  lemma WideTried(t: int, w: Who, e: Setting, tries: nat)
    requires (t == TYPE_HOST || t == TYPE_USER) && tries >= 3
    ensures Choice(t, w, e, tries) == FirstAllowed([t, TYPE_USER_HOST, TYPE_NICK_USER_HOST], w, e)
  {
    hide Allowed, Choice, FirstAllowed;
    UserHostTried(w, e, tries - 1);
    var rest := [TYPE_USER_HOST, TYPE_NICK_USER_HOST];
    OneTried(t, rest, w, e, tries);
    assert [t] + rest == [t, TYPE_USER_HOST, TYPE_NICK_USER_HOST];
  }

  lemma NoneTried(t: int, w: Who, e: Setting)
    requires !(1 <= t <= 7)
    ensures Choice(t, w, e, TYPE_INVALID) == None
  {
  }

  /** The types tried from each ban type of a channel on: ever narrower ones, down to the full mask. */
  lemma {:induction false} TypesTried(w: Who, e: Setting)
    ensures Choice(TYPE_HOST, w, e, TYPE_INVALID)
         == FirstAllowed([TYPE_HOST, TYPE_USER_HOST, TYPE_NICK_USER_HOST], w, e)
    ensures Choice(TYPE_USER, w, e, TYPE_INVALID)
         == FirstAllowed([TYPE_USER, TYPE_USER_HOST, TYPE_NICK_USER_HOST], w, e)
    ensures Choice(TYPE_USER_HOST, w, e, TYPE_INVALID) == FirstAllowed([TYPE_USER_HOST, TYPE_NICK_USER_HOST], w, e)
    ensures Choice(TYPE_NICK, w, e, TYPE_INVALID)
         == FirstAllowed([TYPE_NICK, TYPE_NICK_HOST, TYPE_NICK_USER, TYPE_NICK_USER_HOST], w, e)
    ensures Choice(TYPE_NICK_HOST, w, e, TYPE_INVALID)
         == FirstAllowed([TYPE_NICK_HOST, TYPE_NICK_USER, TYPE_NICK_USER_HOST], w, e)
    ensures Choice(TYPE_NICK_USER, w, e, TYPE_INVALID) == FirstAllowed([TYPE_NICK_USER, TYPE_NICK_USER_HOST], w, e)
    ensures Choice(TYPE_NICK_USER_HOST, w, e, TYPE_INVALID) == FirstAllowed([TYPE_NICK_USER_HOST], w, e)
    ensures forall t :: !(1 <= t <= 7) ==> Choice(t, w, e, TYPE_INVALID) == None
  {
    hide Allowed, Choice, FirstAllowed;
    FullTried(w, e, TYPE_INVALID);
    NickUserTried(w, e, TYPE_INVALID);
    NickHostTried(w, e, TYPE_INVALID);
    NickTried(w, e, TYPE_INVALID);
    UserHostTried(w, e, TYPE_INVALID);
    WideTried(TYPE_HOST, w, e, TYPE_INVALID);
    WideTried(TYPE_USER, w, e, TYPE_INVALID);
    forall t | !(1 <= t <= 7) ensures Choice(t, w, e, TYPE_INVALID) == None {
      NoneTried(t, w, e);
    }
  }

  /** A host is trusted exactly if some trusted mask means it; a host is one word. */
  lemma {:induction false} TrustedMeans(trusted: seq<string>, host: string)
    requires NoSpace(host, 0, |host|)
    ensures Trusted(trusted, host) <==> exists i :: 0 <= i < |trusted| && Matches(trusted[i], 0, host, 0)
  {
    forall i | 0 <= i < |trusted| ensures Commits(trusted[i], 0, host, 0) <==> Matches(trusted[i], 0, host, 0) {
      if Commits(trusted[i], 0, host, 0) {
        CommitsSound(trusted[i], 0, host, 0);
      } else if Matches(trusted[i], 0, host, 0) {
        MatchCommits(trusted[i], 0, host, 0);
      }
    }
    hide Commits, Matches;
  }

  /** What makes a type allowed for a target that fits, in plain terms: a ban of the whole host needs one that is not
      trusted, and on a channel with flag `b` no ban may match the bot. */
  lemma {:induction false} AllowedMeans(t: int, w: Who, e: Setting)
    requires OrdinaryWho(w) && BanMasks.Fits(w) && |e.me.Full()| < USERHOSTLEN
    ensures Allowed(t, w, e)
      <==> && (t == TYPE_HOST ==> forall i :: 0 <= i < |e.trusted| ==> !Commits(e.trusted[i], 0, w.host, 0))
           && ('b' in e.chanflags ==> !Matches(Mask(t, w), 0, e.me.Full(), 0))
  {
    MaskFits(t, w);
    MaskExact(t, w, MyMask(e));
    hide Matches, Commits, Mask;
  }
}
