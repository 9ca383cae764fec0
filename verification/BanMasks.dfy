/** `safeban` of ds.c: from the channel's ban type to a ban mask that hits the
    target and, when the channel asks for it, spares the bot. */
module BanMasks {
  import opened Chars
  import opened Options
  import opened Wildcards

  /** HOSTLEN + USERLEN + NICKLEN + 2 */
  const USERHOSTLEN := 101

  const TYPE_HOST := 1
  const TYPE_USER := 2
  const TYPE_USER_HOST := 3
  const TYPE_NICK := 4
  const TYPE_NICK_HOST := 5
  const TYPE_NICK_USER := 6
  const TYPE_NICK_USER_HOST := 7
  const TYPE_INVALID := 8

  datatype Who = Who(nick: string, user: string, host: string) {
    function Full(): string {
      nick + "!" + user + "@" + host
    }
  }

  predicate IsBanType(t: int) {
    TYPE_HOST <= t < TYPE_INVALID
  }

  predicate UsesNick(t: int) {
    t >= TYPE_NICK
  }

  predicate UsesUser(t: int) {
    t == TYPE_USER || t == TYPE_USER_HOST || t == TYPE_NICK_USER || t == TYPE_NICK_USER_HOST
  }

  predicate UsesHost(t: int) {
    t != TYPE_USER && t != TYPE_NICK && t != TYPE_NICK_USER
  }

  function Part(used: bool, text: string): string {
    if used then text else "*"
  }

  function Mask(t: int, w: Who): string {
    Part(UsesNick(t), w.nick) + "!" + Part(UsesUser(t), w.user) + "@" + Part(UsesHost(t), w.host)
  }

  /** The ban type tried after `t` was refused. */
  function Wider(t: int): int {
    if t == TYPE_HOST || t == TYPE_USER then TYPE_USER_HOST
    else if t == TYPE_NICK then TYPE_NICK_HOST
    else if t == TYPE_NICK_HOST then TYPE_NICK_USER
    else TYPE_NICK_USER_HOST
  }

  // ---------------------------------------------------------------- masks and their targets

  predicate Plain(c: char) {
    c != '*' && c != '%' && c != '?' && c != '\\'
  }

  /** No wildcard, and none of the two marks that separate nick, user and host. */
  predicate Ordinary(text: string) {
    forall c :: c in text ==> c != '*' && c != '%' && c != '?' && c != '!' && c != '@'
  }

  predicate OrdinaryWho(w: Who) {
    Ordinary(w.nick) && Ordinary(w.user) && Ordinary(w.host)
  }

  predicate NoBackslash(text: string, from: nat) {
    forall i :: from <= i < |text| ==> text[i] != '\\'
  }

  /** `p` and `s` agree, letter case aside, on `len` characters. */
  predicate Along(p: string, m: nat, s: string, n: nat, len: nat) {
    && m + len <= |p| && n + len <= |s|
    && forall i :: m <= i < m + len ==> ToLower(p[i]) == ToLower(s[i - m + n])
  }

  /** Plain characters match themselves, one by one, and nothing else. */
  lemma {:induction false} PlainRun(p: string, m: nat, s: string, n: nat, len: nat)
    requires m + len <= |p| && n <= |s|
    requires forall i :: m <= i < m + len ==> Plain(p[i])
    ensures Matches(p, m, s, n) <==> Along(p, m, s, n, len) && Matches(p, m + len, s, n + len)
    decreases len
  {
    if len > 0 && n < |s| && ToLower(p[m]) == ToLower(s[n]) {
      PlainRun(p, m + 1, s, n + 1, len - 1);
    }
  }

  /** `text` stands at `m` in the pattern and at `n` in the string; behind it comes the end of both or a mark
      that the text does not contain. */
  predicate Framed(p: string, m: nat, s: string, n: nat, text: string) {
    && Ordinary(text)
    && m + |text| <= |p| && p[m..m + |text|] == text
    && n + |text| <= |s| && s[n..n + |text|] == text
    && (m + |text| < |p| ==> p[m + |text|] == '!' || p[m + |text|] == '@')
  }

  lemma FramedAt(p: string, m: nat, s: string, n: nat, text: string, k: nat)
    requires Framed(p, m, s, n, text) && k < |text|
    ensures p[m + k] == s[n + k] == text[k]
    ensures text[k] != '!' && text[k] != '@' && (text[k] == '\\' || Plain(text[k]))
  {
    assert p[m..m + |text|][k] == p[m + k];
    assert s[n..n + |text|][k] == s[n + k];
    assert text[k] in text;
  }

  /** Once a backslash of the text has quoted, the pattern is ahead of the string and never matches again. */
  lemma {:induction false} AheadOfText(p: string, m: nat, s: string, n: nat, text: string, x: nat, y: nat)
    requires Framed(p, m, s, n, text) && y < x <= |text|
    ensures !Matches(p, m + x, s, n + y)
    decreases |text| - x
  {
    FramedAt(p, m, s, n, text, y);
    if x < |text| {
      FramedAt(p, m, s, n, text, x);
      if text[x] != '\\' {
        AheadOfText(p, m, s, n, text, x + 1, y + 1);
      } else if x + 1 < |text| {
        AheadOfText(p, m, s, n, text, x + 2, y + 1);
      }
    }
  }

  /** A text matches its own copy if and only if it holds no backslash. */
  lemma {:induction false} TextField(p: string, m: nat, s: string, n: nat, text: string, k: nat)
    requires Framed(p, m, s, n, text) && k <= |text|
    ensures Matches(p, m + k, s, n + k) <==>
      NoBackslash(text, k) && Matches(p, m + |text|, s, n + |text|)
    decreases |text| - k
  {
    if k < |text| {
      FramedAt(p, m, s, n, text, k);
      if text[k] != '\\' {
        TextField(p, m, s, n, text, k + 1);
      } else {
        QuoteBreaks(p, m, s, n, text, k);
      }
    }
  }

  lemma QuoteBreaks(p: string, m: nat, s: string, n: nat, text: string, k: nat)
    requires Framed(p, m, s, n, text) && k < |text| && text[k] == '\\'
    ensures !Matches(p, m + k, s, n + k)
  {
    FramedAt(p, m, s, n, text, k);
    if k + 1 < |text| {
      AheadOfText(p, m, s, n, text, k + 2, k + 1);
    }
  }

  /** A `*` before a mark that the rest of the string holds in one place only must reach that place. */
  lemma StarField(p: string, m: nat, s: string, n: nat, k: nat)
    requires m + 1 < |p| && p[m] == '*' && (p[m + 1] == '!' || p[m + 1] == '@')
    requires n <= k < |s| && s[k] == p[m + 1]
    requires forall i :: n <= i < |s| && i != k ==> s[i] != p[m + 1]
    ensures Matches(p, m, s, n) <==> Matches(p, m + 1, s, k)
  {
    var q := m + 1;
    forall i | n <= i <= |s| && i != k ensures !Matches(p, q, s, i) {
      assert i < |s| ==> ToLower(s[i]) != ToLower(p[q]);
    }
    assert Matches(p, m, s, n) == MatchesLater(p, q, s, n);
  }

  /** One part of a mask, shown or starred, and the mark behind it, against the part of the target it stands for. */
  lemma Field(p: string, m: nat, q: nat, s: string, n: nat, r: nat, shown: bool, text: string)
    requires Ordinary(text)
    requires m <= q < |p| && p[m..q] == Part(shown, text)
    requires n <= r < |s| && s[n..r] == text
    requires p[q] == s[r] && (s[r] == '!' || s[r] == '@')
    requires forall i :: n <= i < |s| && i != r ==> s[i] != s[r]
    ensures Matches(p, m, s, n) <==> (shown ==> NoBackslash(text, 0)) && Matches(p, q + 1, s, r + 1)
  {
    if shown {
      TextField(p, m, s, n, text, 0);
    } else {
      assert p[m] == p[m..q][0];
      StarField(p, m, s, n, r);
    }
  }

  lemma LastField(p: string, m: nat, s: string, n: nat, shown: bool, text: string)
    requires Ordinary(text)
    requires m <= |p| && p[m..] == Part(shown, text)
    requires n <= |s| && s[n..] == text
    ensures Matches(p, m, s, n) <==> (shown ==> NoBackslash(text, 0))
  {
    if shown {
      assert p[m..m + |text|] == p[m..] && s[n..n + |text|] == s[n..];
      TextField(p, m, s, n, text, 0);
    } else {
      assert p[m] == p[m..][0];
      assert Matches(p, m + 1, s, |s|);
    }
  }

  /** The parts of the target that a ban of type `t` shows hold no backslash. */
  predicate ShowsNoBackslash(t: int, w: Who) {
    && (UsesNick(t) ==> NoBackslash(w.nick, 0))
    && (UsesUser(t) ==> NoBackslash(w.user, 0))
    && (UsesHost(t) ==> NoBackslash(w.host, 0))
  }

  /** The full mask of an ordinary target holds one `!` and one `@`. */
  lemma Marks(w: Who)
    requires OrdinaryWho(w)
    ensures var s := w.Full();
      && (forall i :: 0 <= i < |s| ==> (s[i] == '!' <==> i == |w.nick|))
      && (forall i :: 0 <= i < |s| ==> (s[i] == '@' <==> i == |w.nick| + 1 + |w.user|))
  {
    var s := w.Full();
    var u, h := |w.nick| + 1, |w.nick| + 1 + |w.user| + 1;
    forall i | 0 <= i < |s|
      ensures s[i] == '!' <==> i == |w.nick|
      ensures s[i] == '@' <==> i == |w.nick| + 1 + |w.user|
    {
      if i < |w.nick| {
        assert s[i] == w.nick[i] && w.nick[i] in w.nick;
      } else if u <= i < u + |w.user| {
        assert s[i] == w.user[i - u] && w.user[i - u] in w.user;
      } else if h <= i {
        assert s[i] == w.host[i - h] && w.host[i - h] in w.host;
      }
    }
  }

  /** Where the three parts of `a!b@c` stand. */
  predicate LaidOut(p: string, a: string, b: string, c: string) {
    && |p| == |a| + |b| + |c| + 2
    && p[..|a|] == a && p[|a|] == '!'
    && p[|a| + 1..|a| + 1 + |b|] == b && p[|a| + 1 + |b|] == '@'
    && p[|a| + 1 + |b| + 1..] == c
  }

  lemma LayOut(a: string, b: string, c: string)
    ensures LaidOut(a + "!" + b + "@" + c, a, b, c)
  {
    var p := a + "!" + b + "@" + c;
    assert p[|a| + 1..|a| + 1 + |b|] == b;
    assert p[|a| + 1 + |b| + 1..] == c;
  }

  /** A mask of type `t` for `w`, and `w` in full. */
  ghost predicate Against(p: string, s: string, t: int, w: Who) {
    && OrdinaryWho(w)
    && LaidOut(p, Part(UsesNick(t), w.nick), Part(UsesUser(t), w.user), Part(UsesHost(t), w.host))
    && LaidOut(s, w.nick, w.user, w.host)
    && (forall i :: 0 <= i < |s| ==> (s[i] == '!' <==> i == |w.nick|))
    && (forall i :: 0 <= i < |s| ==> (s[i] == '@' <==> i == |w.nick| + 1 + |w.user|))
  }

  lemma NickField(p: string, s: string, t: int, w: Who, q: nat, r: nat)
    requires Against(p, s, t, w)
    requires q == |Part(UsesNick(t), w.nick)| && r == |w.nick|
    ensures Matches(p, 0, s, 0) <==> (UsesNick(t) ==> NoBackslash(w.nick, 0)) && Matches(p, q + 1, s, r + 1)
  {
    Field(p, 0, q, s, 0, r, UsesNick(t), w.nick);
  }

  lemma UserField(p: string, s: string, t: int, w: Who, m: nat, q: nat, n: nat, r: nat)
    requires Against(p, s, t, w)
    requires m == |Part(UsesNick(t), w.nick)| + 1 && n == |w.nick| + 1
    requires q == m + |Part(UsesUser(t), w.user)| && r == n + |w.user|
    ensures Matches(p, m, s, n) <==> (UsesUser(t) ==> NoBackslash(w.user, 0)) && Matches(p, q + 1, s, r + 1)
  {
    Field(p, m, q, s, n, r, UsesUser(t), w.user);
  }

  lemma HostField(p: string, s: string, t: int, w: Who, m: nat, n: nat)
    requires Against(p, s, t, w)
    requires m == |Part(UsesNick(t), w.nick)| + 1 + |Part(UsesUser(t), w.user)| + 1 && n == |w.nick| + 1 + |w.user| + 1
    ensures Matches(p, m, s, n) <==> (UsesHost(t) ==> NoBackslash(w.host, 0))
  {
    LastField(p, m, s, n, UsesHost(t), w.host);
  }

  lemma AllFields(p: string, s: string, t: int, w: Who)
    requires Against(p, s, t, w)
    ensures Matches(p, 0, s, 0) <==> ShowsNoBackslash(t, w)
  {
    hide Against, Matches;
    var m, n := |Part(UsesNick(t), w.nick)| + 1, |w.nick| + 1;
    var q, r := m + |Part(UsesUser(t), w.user)|, n + |w.user|;
    NickField(p, s, t, w, m - 1, n - 1);
    UserField(p, s, t, w, m, q, n, r);
    HostField(p, s, t, w, q + 1, r + 1);
  }

  /** Which masks hit their own target: exactly those that show no backslash. */
  lemma {:induction false} MaskHits(t: int, w: Who)
    requires OrdinaryWho(w)
    ensures Matches(Mask(t, w), 0, w.Full(), 0) <==> ShowsNoBackslash(t, w)
  {
    var p, s := Mask(t, w), w.Full();
    assert Against(p, s, t, w) by {
      Marks(w);
      LayOut(Part(UsesNick(t), w.nick), Part(UsesUser(t), w.user), Part(UsesHost(t), w.host));
      LayOut(w.nick, w.user, w.host);
    }
    AllFields(p, s, t, w);
  }

  // ---------------------------------------------------------------- the choice of a mask

  /** What the choice depends on besides the target. */
  datatype Setting = Setting(chanflags: string, trusted: seq<string>, me: Who)

  ghost predicate Trusted(trusted: seq<string>, host: string) {
    exists i :: 0 <= i < |trusted| && Commits(trusted[i], 0, host, 0)
  }

  function MyMask(e: Setting): string {
    Truncated(e.me.Full(), USERHOSTLEN)
  }

  function BanMask(t: int, w: Who): string {
    Truncated(Mask(t, w), USERHOSTLEN)
  }

  ghost predicate Allowed(t: int, w: Who, e: Setting) {
    && !(t == TYPE_HOST && Trusted(e.trusted, w.host))
    && ('b' in e.chanflags ==> !Commits(BanMask(t, w), 0, MyMask(e), 0))
  }

  /** The type of the mask chosen, at most `tries` types from `t` on being tried. */
  ghost function Choice(t: int, w: Who, e: Setting, tries: nat): (r: Option<int>)
    ensures r.Some? ==> IsBanType(r.value) && Allowed(r.value, w, e)
    decreases tries
  {
    if tries == 0 || !IsBanType(t) then None
    else if Allowed(t, w, e) then Some(t)
    else Choice(Wider(t), w, e, tries - 1)
  }

  method IsTrusted(trusted: seq<string>, host: string) returns (b: bool)
    ensures b <==> Trusted(trusted, host)
  {
    for i := 0 to |trusted|
      invariant forall k :: 0 <= k < i ==> !Commits(trusted[k], 0, host, 0)
    {
      var r := WildMatch(trusted[i], host);
      if r != 0 {
        return true;
      }
    }
    return false;
  }

  function IndexOf(s: string, c: char): (i: nat)
    ensures i <= |s|
    ensures i < |s| ==> s[i] == c
    ensures c !in s[..i]
  {
    if s == "" || s[0] == c then 0
    else
      var i := IndexOf(s[1..], c) + 1;
      assert s[..i] == [s[0]] + s[1..][..i - 1];
      i
  }

  /** The test that `safeban` puts a ban type to. */
  method IsAllowed(t: int, w: Who, e: Setting) returns (ok: bool)
    ensures ok <==> Allowed(t, w, e)
  {
    if t == TYPE_HOST {
      var isTrusted := IsTrusted(e.trusted, w.host);
      if isTrusted {
        return false;
      }
    }
    if 'b' !in e.chanflags {
      return true;
    }
    var hit := WildMatch(BanMask(t, w), MyMask(e));
    ok := hit == 0;
  }

  /** `safeban`. The user and host arrive as `user@host`; without an `@` the original dereferences NULL. */
  method SafeBan(bantype: int, e: Setting, safemask: string, nick: string) returns (r: Option<string>)
    requires '@' in safemask && |safemask| <= USERHOSTLEN
    ensures var at := IndexOf(safemask, '@');
      at < |safemask| &&
      var w := Who(nick, safemask[..at], safemask[at + 1..]);
      var c := Choice(bantype, w, e, TYPE_INVALID);
      r == if c.Some? then Some(BanMask(c.value, w)) else None
  {
    var at := IndexOf(safemask, '@');
    assert safemask[..|safemask|] == safemask;
    var w := Who(nick, safemask[..at], safemask[at + 1..]);
    var t, tries: nat := bantype, TYPE_INVALID;
    while tries > 0
      invariant Choice(bantype, w, e, TYPE_INVALID) == Choice(t, w, e, tries)
    {
      if !IsBanType(t) {
        return None;
      }
      var allowed := IsAllowed(t, w, e);
      if allowed {
        return Some(BanMask(t, w));
      }
      t, tries := Wider(t), tries - 1;
    }
    return None;
  }

  // ---------------------------------------------------------------- what the choice guarantees

  function Width(text: string): nat {
    if text == "" then 1 else |text|
  }

  /** Every mask of the target, a star being one character wide, survives the buffers whole. */
  predicate Fits(w: Who) {
    Width(w.nick) + Width(w.user) + Width(w.host) + 2 < USERHOSTLEN
  }

  predicate BackslashFree(w: Who) {
    NoBackslash(w.nick, 0) && NoBackslash(w.user, 0) && NoBackslash(w.host, 0)
  }

  /** Letter case in the string does not matter to a pattern. */
  lemma {:induction false} SameTextSameMatch(p: string, m: nat, s: string, s': string, n: nat)
    requires m <= |p| && n <= |s| && SameText(s, s')
    ensures Matches(p, m, s, n) ==> Matches(p, m, s', n)
    decreases |p| - m
  {
    if m < |p| && Matches(p, m, s, n) {
      var q := m + 1;
      if p[m] == '*' {
        assert MatchesLater(p, q, s, n);
        var k :| n <= k <= |s| && Matches(p, q, s, k);
        SameTextSameMatch(p, q, s, s', k);
        assert MatchesLater(p, q, s', n);
      } else if p[m] == '%' {
        assert MatchesInWord(p, q, s, n);
        var k :| n <= k <= |s| && NoSpace(s, n, k) && Matches(p, q, s, k);
        SameTextSameMatch(p, q, s, s', k);
        assert forall i :: n <= i < k ==> ToLower(s[i]) == ToLower(s'[i]);
        assert MatchesInWord(p, q, s', n);
      } else {
        SameTextSameMatch(p, After(p, m), s, s', n + 1);
      }
    }
  }

  /** The full mask of a target without wildcards and backslashes matches that target alone. */
  lemma {:induction false} FullMaskAlone(w: Who, s: string)
    requires OrdinaryWho(w) && BackslashFree(w)
    ensures Matches(Mask(TYPE_NICK_USER_HOST, w), 0, s, 0) <==> SameText(w.Full(), s)
  {
    var p := w.Full();
    forall i | 0 <= i < |p| ensures Plain(p[i]) {
      PlainFull(w, i);
    }
    PlainRun(p, 0, s, 0, |p|);
  }

  lemma PlainFull(w: Who, i: nat)
    requires OrdinaryWho(w) && BackslashFree(w) && i < |w.Full()|
    ensures Plain(w.Full()[i])
  {
    var u, h := |w.nick| + 1, |w.nick| + 1 + |w.user| + 1;
    if i < |w.nick| {
      assert w.Full()[i] == w.nick[i] && w.nick[i] in w.nick;
    } else if u <= i < u + |w.user| {
      assert w.Full()[i] == w.user[i - u] && w.user[i - u] in w.user;
    } else if h <= i {
      assert w.Full()[i] == w.host[i - h] && w.host[i - h] in w.host;
    }
  }

  lemma MaskFits(t: int, w: Who)
    requires OrdinaryWho(w) && Fits(w)
    ensures BanMask(t, w) == Mask(t, w)
  {
  }

  lemma MaskSharp(t: int, w: Who)
    requires OrdinaryWho(w)
    ensures Sharp(Mask(t, w), 0)
  {
    var p := Mask(t, w);
    forall c | c in p ensures c != '%' {
      if c in w.nick || c in w.user || c in w.host {
      } else {
        assert c in "*" || c in "!" || c in "@";
      }
    }
    assert p[0..] == p;
    NoPercentSharp(p, 0);
  }

  /** A mask of a target without `%`: what the matcher says of it is what it means. */
  lemma {:induction false} MaskExact(t: int, w: Who, s: string)
    requires OrdinaryWho(w)
    ensures Commits(Mask(t, w), 0, s, 0) <==> Matches(Mask(t, w), 0, s, 0)
  {
    MaskSharp(t, w);
    if Commits(Mask(t, w), 0, s, 0) {
      CommitsSound(Mask(t, w), 0, s, 0);
    }
    if Matches(Mask(t, w), 0, s, 0) {
      MatchCommits(Mask(t, w), 0, s, 0);
    }
  }

  /** The mask chosen hits its target if and only if it shows no backslash; it spares the bot on a channel with
      flag `b`; and it never bans the whole host of a trusted one. */
  lemma {:induction false} ChosenMask(t: int, w: Who, e: Setting, tries: nat)
    requires OrdinaryWho(w) && Fits(w)
    ensures var c := Choice(t, w, e, tries); c.Some? ==>
      && (Matches(BanMask(c.value, w), 0, w.Full(), 0) <==> ShowsNoBackslash(c.value, w))
      && ('b' in e.chanflags ==> !Matches(BanMask(c.value, w), 0, MyMask(e), 0))
      && (Trusted(e.trusted, w.host) ==> UsesNick(c.value) || UsesUser(c.value))
  {
    var c := Choice(t, w, e, tries);
    if c.Some? {
      MaskFits(c.value, w);
      MaskHits(c.value, w);
      MaskExact(c.value, w, MyMask(e));
    }
  }

  /** The narrowest mask is among the types tried from any start. */
  lemma NarrowestTried(t: int, w: Who, e: Setting)
    requires IsBanType(t) && Allowed(TYPE_NICK_USER_HOST, w, e)
    ensures Choice(t, w, e, TYPE_INVALID).Some?
  {
    var t1 := Wider(t);
    var t2 := Wider(t1);
    var t3 := Wider(t2);
    assert t3 == TYPE_NICK_USER_HOST;
    assert Choice(t3, w, e, TYPE_INVALID - 3).Some?;
    assert Choice(t2, w, e, TYPE_INVALID - 2).Some?;
    assert Choice(t1, w, e, TYPE_INVALID - 1).Some?;
  }

  lemma {:induction false} AllRefused(t: int, w: Who, e: Setting, tries: nat)
    requires forall x :: IsBanType(x) ==> !Allowed(x, w, e)
    ensures Choice(t, w, e, tries).None?
    decreases tries
  {
    if tries > 0 && IsBanType(t) {
      AllRefused(Wider(t), w, e, tries - 1);
    }
  }

  /** When `safeban` returns NULL for a target without wildcards and backslashes: exactly when the channel spares
      the bot and the target is the bot. */
  lemma {:induction false} NullOnlyForMyself(t: int, w: Who, e: Setting)
    requires IsBanType(t) && OrdinaryWho(w) && BackslashFree(w) && Fits(w)
    ensures Choice(t, w, e, TYPE_INVALID).None? <==> 'b' in e.chanflags && SameText(w.Full(), MyMask(e))
  {
    if 'b' in e.chanflags && SameText(w.Full(), MyMask(e)) {
      forall x | IsBanType(x) ensures !Allowed(x, w, e) {
        MaskFits(x, w);
        MaskHits(x, w);
        SameTextSameMatch(Mask(x, w), 0, w.Full(), MyMask(e), 0);
        MaskExact(x, w, MyMask(e));
      }
      AllRefused(t, w, e, TYPE_INVALID);
    } else {
      MaskFits(TYPE_NICK_USER_HOST, w);
      FullMaskAlone(w, MyMask(e));
      MaskExact(TYPE_NICK_USER_HOST, w, MyMask(e));
      NarrowestTried(t, w, e);
    }
  }

  // ---------------------------------------------------------------- masks cut by the buffer

  /** Without wildcards a pattern is too short for a longer string. */
  lemma {:induction false} TooShort(p: string, m: nat, s: string, n: nat)
    requires m <= |p| && n <= |s| && |p| - m < |s| - n
    requires forall i :: m <= i < |p| ==> !IsWild(p, i)
    ensures !Matches(p, m, s, n)
    decreases |p| - m
  {
    if m < |p| {
      TooShort(p, After(p, m), s, n + 1);
    }
  }

  /** A mask that is too long, cut to `p`, and its target. */
  ghost predicate CutAgainst(p: string, s: string, t: int, w: Who) {
    && |Mask(t, w)| >= USERHOSTLEN && p == Mask(t, w)[..USERHOSTLEN - 1] && s == w.Full()
    && Against(Mask(t, w), s, t, w)
  }

  lemma CutIsAgainst(t: int, w: Who)
    requires OrdinaryWho(w) && |Mask(t, w)| >= USERHOSTLEN
    ensures CutAgainst(BanMask(t, w), w.Full(), t, w)
  {
    Marks(w);
    LayOut(Part(UsesNick(t), w.nick), Part(UsesUser(t), w.user), Part(UsesHost(t), w.host));
    LayOut(w.nick, w.user, w.host);
  }

  /** Text shows no wildcard where it stands in a pattern. */
  lemma TextIsPlain(p: string, m: nat, text: string)
    requires Ordinary(text) && m <= |p| && p[m..] <= text
    ensures forall i :: m <= i < |p| ==> !IsWild(p, i)
  {
    forall i | m <= i < |p| ensures !IsWild(p, i) {
      assert p[i] == p[m..][i - m] == text[i - m];
      assert text[i - m] in text;
    }
  }

  /** Cut within the nick: there is no pattern left for the rest of the target. */
  lemma CutInNick(p: string, s: string, t: int, w: Who)
    requires CutAgainst(p, s, t, w) && |Part(UsesNick(t), w.nick)| >= USERHOSTLEN - 1
    ensures !Matches(p, 0, s, 0)
  {
    assert p[0..] <= w.nick;
    TextIsPlain(p, 0, w.nick);
    TooShort(p, 0, s, 0);
  }

  /** Cut within or behind the user: only a star that is left at the end can take the rest. */
  lemma CutInUser(p: string, s: string, t: int, w: Who)
    requires CutAgainst(p, s, t, w)
    requires var a, b := |Part(UsesNick(t), w.nick)|, |Part(UsesUser(t), w.user)|;
      a < USERHOSTLEN - 1 <= a + 1 + b
    ensures Matches(p, 0, s, 0) <==> !UsesUser(t) && UsesNick(t) && |w.nick| == 98 && NoBackslash(w.nick, 0)
  {
    var part, user := Part(UsesNick(t), w.nick), Part(UsesUser(t), w.user);
    var a, n := |part|, |w.nick| + 1;
    assert p[..a] == part && p[a] == '!' && s[..n - 1] == w.nick && s[n - 1] == '!';
    assert p[0..a] == p[..a] && s[0..n - 1] == s[..n - 1];
    Field(p, 0, a, s, 0, n - 1, UsesNick(t), w.nick);
    assert p[a + 1..] <= user;
    assert |s| - n == |w.user| + 1 + |w.host|;
    if UsesUser(t) {
      TextIsPlain(p, a + 1, w.user);
      TooShort(p, a + 1, s, n);
    } else if a + 2 == |p| {
      assert p[a + 1] == p[a + 1..][0] == '*';
      assert Matches(p, a + 2, s, |s|);
      assert MatchesLater(p, a + 2, s, n);
    } else {
      TooShort(p, a + 1, s, n);
    }
  }

  /** The parts of a mask that is cut behind its user end at `a` and `b`, those of the target at `n` and `r`. */
  ghost predicate CutParts(p: string, s: string, t: int, w: Who, a: nat, b: nat, n: nat, r: nat) {
    && OrdinaryWho(w)
    && a < b < |p| && p[0..a] == Part(UsesNick(t), w.nick) && p[a] == '!'
    && p[a + 1..b] == Part(UsesUser(t), w.user) && p[b] == '@' && p[b + 1..] < Part(UsesHost(t), w.host)
    && n < r < |s| && s[0..n] == w.nick && s[n] == '!' && s[n + 1..r] == w.user && s[r] == '@'
    && s[r + 1..] == w.host
    && (forall i :: 0 <= i < |s| && i != n ==> s[i] != '!')
    && (forall i :: 0 <= i < |s| && i != r ==> s[i] != '@')
  }

  /** The front of a text that is laid out, cut behind the second part. */
  lemma CutLaid(full: string, p: string, x: string, y: string, z: string)
    requires LaidOut(full, x, y, z) && |x| + 1 + |y| < |p| < |full| && p == full[..|p|]
    ensures var a, b := |x|, |x| + 1 + |y|;
      p[0..a] == x && p[a] == '!' && p[a + 1..b] == y && p[b] == '@' && p[b + 1..] < z
  {
    var a, b := |x|, |x| + 1 + |y|;
    assert p[0..a] == full[..a] && p[a + 1..b] == full[a + 1..b];
    assert p[b + 1..] == z[..|p| - b - 1];
  }

  lemma CutPartsAre(p: string, s: string, t: int, w: Who)
    requires CutAgainst(p, s, t, w)
    requires |Part(UsesNick(t), w.nick)| + 1 + |Part(UsesUser(t), w.user)| < USERHOSTLEN - 1
    ensures var a, n := |Part(UsesNick(t), w.nick)|, |w.nick|;
      CutParts(p, s, t, w, a, a + 1 + |Part(UsesUser(t), w.user)|, n, n + 1 + |w.user|)
  {
    CutLaid(Mask(t, w), p, Part(UsesNick(t), w.nick), Part(UsesUser(t), w.user), Part(UsesHost(t), w.host));
    assert s[0..|w.nick|] == s[..|w.nick|];
    hide Mask, Part;
  }

  lemma CutNickPart(p: string, s: string, t: int, w: Who, a: nat, b: nat, n: nat, r: nat)
    requires CutParts(p, s, t, w, a, b, n, r)
    ensures Matches(p, 0, s, 0) <==> (UsesNick(t) ==> NoBackslash(w.nick, 0)) && Matches(p, a + 1, s, n + 1)
  {
    Field(p, 0, a, s, 0, n, UsesNick(t), w.nick);
  }

  lemma CutUserPart(p: string, s: string, t: int, w: Who, a: nat, b: nat, n: nat, r: nat)
    requires CutParts(p, s, t, w, a, b, n, r)
    ensures Matches(p, a + 1, s, n + 1) <==> (UsesUser(t) ==> NoBackslash(w.user, 0)) && Matches(p, b + 1, s, r + 1)
  {
    Field(p, a + 1, b, s, n + 1, r, UsesUser(t), w.user);
  }

  lemma CutHostPart(p: string, s: string, t: int, w: Who, a: nat, b: nat, n: nat, r: nat)
    requires CutParts(p, s, t, w, a, b, n, r)
    ensures Matches(p, b + 1, s, r + 1) <==> !UsesHost(t) && w.host == ""
  {
    CutRest(p, b + 1, s, r + 1, UsesHost(t), w.host);
  }

  /** Cut within or ahead of the host: only an empty host whose star is cut off is still matched. */
  lemma CutInHost(p: string, s: string, t: int, w: Who)
    requires CutAgainst(p, s, t, w)
    requires |Part(UsesNick(t), w.nick)| + 1 + |Part(UsesUser(t), w.user)| < USERHOSTLEN - 1
    ensures Matches(p, 0, s, 0) <==> !UsesHost(t) && w.host == "" && (UsesNick(t) ==> NoBackslash(w.nick, 0))
                                     && (UsesUser(t) ==> NoBackslash(w.user, 0))
  {
    var a, n := |Part(UsesNick(t), w.nick)|, |w.nick|;
    var b, r := a + 1 + |Part(UsesUser(t), w.user)|, n + 1 + |w.user|;
    CutPartsAre(p, s, t, w);
    hide CutAgainst, CutParts, Matches;
    CutNickPart(p, s, t, w, a, b, n, r);
    CutUserPart(p, s, t, w, a, b, n, r);
    CutHostPart(p, s, t, w, a, b, n, r);
  }

  lemma CutRest(p: string, m: nat, s: string, n: nat, shown: bool, text: string)
    requires Ordinary(text) && m <= |p| && p[m..] < Part(shown, text) && n <= |s| && s[n..] == text
    ensures Matches(p, m, s, n) <==> !shown && text == ""
  {
    assert |p| - m == |p[m..]| < |Part(shown, text)|;
    if shown {
      TextIsPlain(p, m, text);
      TooShort(p, m, s, n);
    }
  }

  /** When a mask that is cut still hits its target: when only the star of an empty host is lost, or when the cut
      falls right behind the star of the user. */
  predicate CutHits(t: int, w: Who) {
    || (!UsesHost(t) && |Mask(t, w)| == USERHOSTLEN && w.host == ""
        && (UsesNick(t) ==> NoBackslash(w.nick, 0)) && (UsesUser(t) ==> NoBackslash(w.user, 0)))
    || (!UsesUser(t) && UsesNick(t) && |w.nick| == 98 && NoBackslash(w.nick, 0))
  }

  /** For every ban type and target: the mask that comes out of the buffer hits its target if and only if it is whole
      and shows no backslash, or is cut in one of the two places where that does no harm. */
  lemma {:induction false} BanMaskHits(t: int, w: Who)
    requires OrdinaryWho(w)
    ensures Matches(BanMask(t, w), 0, w.Full(), 0)
       <==> if |Mask(t, w)| < USERHOSTLEN then ShowsNoBackslash(t, w) else CutHits(t, w)
  {
    if |Mask(t, w)| < USERHOSTLEN {
      MaskHits(t, w);
    } else {
      var p, s := BanMask(t, w), w.Full();
      var a, b := |Part(UsesNick(t), w.nick)|, |Part(UsesUser(t), w.user)|;
      CutIsAgainst(t, w);
      hide Matches, Against;
      if a >= USERHOSTLEN - 1 {
        CutInNick(p, s, t, w);
      } else if a + 1 + b >= USERHOSTLEN - 1 {
        CutInUser(p, s, t, w);
      } else {
        CutInHost(p, s, t, w);
      }
    }
  }

  /** So a full mask that is cut always misses its target. */
  lemma {:induction false} CutMaskMisses(w: Who)
    requires OrdinaryWho(w) && |w.Full()| >= USERHOSTLEN
    ensures !Matches(BanMask(TYPE_NICK_USER_HOST, w), 0, w.Full(), 0)
  {
    BanMaskHits(TYPE_NICK_USER_HOST, w);
  }

  /** A nick with a backslash: the mask quotes the letter behind it and misses the very nick it was built from. */
  lemma {:induction false} BackslashNickMissed()
    ensures var w := Who("a\\b", "u", "h"); !Matches(Mask(TYPE_NICK, w), 0, w.Full(), 0)
  {
    var w := Who("a\\b", "u", "h");
    MaskHits(TYPE_NICK, w);
    assert w.nick[1] == '\\';
  }
}
