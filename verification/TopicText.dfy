/** Topic lines: `gettopic` of ds.c splits one at `" | "`, `settopic` joins the
    topics again. */
module TopicText {
  import opened Chars
  import opened Options
  import opened Topics
  import opened Scheduler

  const TOPICLEN := 250
  const SEPARATOR := " | "
  const LINE_MAX := 511  // WRITE_BUFFER_LENGTH - 1

  // ---------------------------------------------------------------- control characters

  predicate IsCntrl(c: char) {
    c as int < 32 || c as int == 127
  }

  /** `stripcntrl` */
  function StripCntrl(s: string): string {
    if s == "" then "" else (if IsCntrl(s[0]) then "" else [s[0]]) + StripCntrl(s[1..])
  }

  /** `stripmirc`: character 3 switches colour on and off, and the digits that follow it are its number. */
  function StripMirc(s: string, isColor: bool, inColor: bool): string {
    if s == "" then ""
    else if s[0] as int == 3 then StripMirc(s[1..], !isColor, !inColor)
    else if isColor && inColor && ('0' <= s[0] <= '9' || s[0] == ',') then StripMirc(s[1..], isColor, inColor)
    else [s[0]] + StripMirc(s[1..], isColor, false)
  }

  function Strip(s: string): string {
    StripCntrl(StripMirc(s, false, false))
  }

  lemma MircStep(s: string, i: nat, isColor: bool, inColor: bool)
    requires i < |s|
    ensures StripMirc(s[i..], isColor, inColor)
      == if s[i] as int == 3 then StripMirc(s[i + 1..], !isColor, !inColor)
         else if isColor && inColor && ('0' <= s[i] <= '9' || s[i] == ',') then StripMirc(s[i + 1..], isColor, inColor)
         else [s[i]] + StripMirc(s[i + 1..], isColor, false)
  {
    assert s[i..][1..] == s[i + 1..];
  }

  lemma CntrlStep(s: string, i: nat)
    requires i < |s|
    ensures StripCntrl(s[i..]) == (if IsCntrl(s[i]) then "" else [s[i]]) + StripCntrl(s[i + 1..])
  {
    assert s[i..][1..] == s[i + 1..];
  }

  lemma StripBegins(s: string)
    ensures s[0..] == s && s[|s|..] == "" && StripCntrl("") == ""
  {
  }

  /** The loop of `stripmirc`. */
  method RemoveColors(source: string) returns (r: string)
    ensures r == StripMirc(source, false, false)
  {
    var isColor, inColor, i := false, false, 0;
    r := "";
    StripBegins(source);
    MircEnds(source);
    hide StripMirc;
    while i < |source|
      invariant 0 <= i <= |source|
      invariant StripMirc(source, false, false) == r + StripMirc(source[i..], isColor, inColor)
    {
      var c := source[i];
      MircStep(source, i, isColor, inColor);
      if c as int == 3 {
        isColor, inColor := !isColor, !inColor;
      } else if !(isColor && inColor && ('0' <= c <= '9' || c == ',')) {
        ghost var tail := StripMirc(source[i + 1..], isColor, false);
        assert r + ([c] + tail) == (r + [c]) + tail;
        inColor := false;
        r := r + [c];
      }
      i := i + 1;
    }
    assert r + "" == r;
  }

  lemma MircEnds(s: string)
    ensures forall a, b :: StripMirc(s[|s|..], a, b) == ""
  {
  }

  /** The loop of `stripcntrl`. */
  method RemoveControls(source: string) returns (r: string)
    ensures r == StripCntrl(source)
  {
    var i := 0;
    r := "";
    StripBegins(source);
    hide StripCntrl;
    while i < |source|
      invariant 0 <= i <= |source| && StripCntrl(source) == r + StripCntrl(source[i..])
    {
      CntrlStep(source, i);
      ghost var tail := StripCntrl(source[i + 1..]);
      if !IsCntrl(source[i]) {
        assert r + ([source[i]] + tail) == (r + [source[i]]) + tail;
        r := r + [source[i]];
      } else {
        assert "" + tail == tail;
      }
      i := i + 1;
    }
    assert r + "" == r;
  }

  method StripText(text: string) returns (r: string)
    ensures r == Strip(text)
  {
    r := RemoveColors(text);
    r := RemoveControls(r);
  }

  predicate ControlFree(s: string) {
    forall i :: 0 <= i < |s| ==> !IsCntrl(s[i])
  }

  lemma {:induction false} ControlFreeStays(s: string)
    requires ControlFree(s)
    ensures StripCntrl(s) == s && StripMirc(s, false, false) == s
  {
    if s != "" {
      assert s == [s[0]] + s[1..];
      ControlFreeStays(s[1..]);
    }
  }

  // ---------------------------------------------------------------- splitting and joining

  predicate SepAt(t: string, i: nat) {
    i + 3 <= |t| && t[i] == ' ' && t[i + 1] == '|' && t[i + 2] == ' '
  }

  /** The loop of `gettopic` from `i` on, `piece` being the topic it is filling. */
  function Scan(t: string, i: nat, piece: string): seq<string>
    decreases |t| - i
  {
    if i >= |t| then (if piece == "" then [] else [piece])
    else if SepAt(t, i) || |piece| >= TOPICLEN then [piece] + Scan(t, i + 3, "")
    else Scan(t, i + 1, piece + [t[i]])
  }

  function Joined(ts: seq<string>): string {
    if ts == [] then "" else if |ts| == 1 then ts[0] else ts[0] + SEPARATOR + Joined(ts[1..])
  }

  /** The text from `i` on, up to the next separator. */
  function Head(t: string, i: nat): string
    requires i <= |t|
    decreases |t| - i
  {
    if i == |t| || SepAt(t, i) then "" else [t[i]] + Head(t, i + 1)
  }

  /** The pieces behind the next separator, cut at every separator and nowhere else. */
  function Tail(t: string, i: nat): seq<string>
    requires i <= |t|
    decreases |t| - i
  {
    if i == |t| then []
    else if SepAt(t, i) then [Head(t, i + 3)] + Tail(t, i + 3)
    else Tail(t, i + 1)
  }

  predicate AllShort(ps: seq<string>) {
    forall j :: 0 <= j < |ps| ==> |ps[j]| <= TOPICLEN
  }

  /** Pieces that `gettopic` can hold, the first one coming on top of `k` characters, and the last one not empty
      unless it is all there is. */
  predicate Fit(t: string, i: nat, k: nat)
    requires i <= |t|
  {
    && k + |Head(t, i)| <= TOPICLEN
    && AllShort(Tail(t, i))
    && (Tail(t, i) != [] ==> Tail(t, i)[|Tail(t, i)| - 1] != "")
  }

  function First(ts: seq<string>, c: nat): seq<string> {
    if |ts| <= c then ts else ts[..c]
  }

  lemma SamePrefix(p: string, x: string, y: string)
    ensures p + x == p + y <==> x == y
  {
    assert (p + x)[|p|..] == x && (p + y)[|p|..] == y;
  }

  lemma FitAtSep(t: string, i: nat, k: nat)
    requires i < |t| && SepAt(t, i) && k <= TOPICLEN
    ensures Fit(t, i, k) <==> Fit(t, i + 3, 0) && i + 3 < |t|
  {
    var h, r := Head(t, i + 3), Tail(t, i + 3);
    assert Head(t, i) == "" && Tail(t, i) == [h] + r;
    ShortOneMore(h, r);
    assert r != [] ==> ([h] + r)[|r|] == r[|r| - 1];
    assert i + 3 == |t| ==> h == "" && r == [];
    assert i + 3 < |t| && h == "" ==> SepAt(t, i + 3) && r != [];
  }

  lemma ShortOneMore(h: string, r: seq<string>)
    ensures AllShort([h] + r) <==> |h| <= TOPICLEN && AllShort(r)
  {
    var ps := [h] + r;
    assert ps[0] == h && ps[1..] == r;
    if AllShort(ps) {
      forall j | 0 <= j < |r| ensures |r[j]| <= TOPICLEN {
        assert ps[j + 1] == r[j];
      }
    }
  }

  lemma JoinedFirst(piece: string, rest: seq<string>, c: nat)
    requires c >= 1
    ensures Joined(First([piece] + rest, c)) ==
      if c == 1 || rest == [] then piece else piece + SEPARATOR + Joined(First(rest, c - 1))
  {
    var f := First([piece] + rest, c);
    if c > 1 && rest != [] {
      assert f[1..] == First(rest, c - 1);
    } else {
      assert f == [piece];
    }
  }

  /** Joining what was split, `c` topics at the most, gives back the text exactly when its pieces fit. */
  lemma {:induction false} SplitJoin(t: string, i: nat, piece: string, c: nat)
    requires i <= |t| && |piece| <= TOPICLEN && c >= 1
    ensures Joined(First(Scan(t, i, piece), c)) == piece + t[i..] <==>
      Fit(t, i, |piece|) && |Scan(t, i, piece)| <= c
    decreases |t| - i
  {
    if i == |t| {
      SplitJoinAtEnd(t, piece, c);
    } else if SepAt(t, i) {
      if c > 1 {
        SplitJoin(t, i + 3, "", c - 1);
      }
      SplitJoinAtSep(t, i, piece, c);
    } else if |piece| >= TOPICLEN {
      SplitJoinAtCut(t, i, piece, c);
    } else {
      SplitJoin(t, i + 1, piece + [t[i]], c);
      SplitJoinGrows(t, i, piece);
      hide Joined, First, Scan, Fit;
    }
  }

  lemma SplitJoinGrows(t: string, i: nat, piece: string)
    requires i < |t| && !SepAt(t, i) && |piece| < TOPICLEN
    ensures piece + t[i..] == (piece + [t[i]]) + t[i + 1..]
    ensures Scan(t, i, piece) == Scan(t, i + 1, piece + [t[i]])
    ensures Fit(t, i, |piece|) <==> Fit(t, i + 1, |piece + [t[i]]|)
  {
  }

  lemma SplitJoinAtEnd(t: string, piece: string, c: nat)
    requires |piece| <= TOPICLEN && c >= 1
    ensures Joined(First(Scan(t, |t|, piece), c)) == piece + t[|t|..]
    ensures Fit(t, |t|, |piece|) && |Scan(t, |t|, piece)| <= c
  {
    assert piece + t[|t|..] == piece;
  }

  lemma SplitJoinAtSep(t: string, i: nat, piece: string, c: nat)
    requires i < |t| && SepAt(t, i) && |piece| <= TOPICLEN && c >= 1
    requires c > 1 ==> (Joined(First(Scan(t, i + 3, ""), c - 1)) == "" + t[i + 3..] <==>
      Fit(t, i + 3, 0) && |Scan(t, i + 3, "")| <= c - 1)
    ensures Joined(First(Scan(t, i, piece), c)) == piece + t[i..] <==>
      Fit(t, i, |piece|) && |Scan(t, i, piece)| <= c
  {
    var rest := Scan(t, i + 3, "");
    assert Scan(t, i, piece) == [piece] + rest;
    ScanSome(t, i + 3, "");
    FitAtSep(t, i, |piece|);
    JoinedFirst(piece, rest, c);
    hide Joined, Fit, Scan;
    if c == 1 || rest == [] {
      SamePrefix(piece, "", t[i..]);
      assert piece + "" == piece && |t[i..]| > 0;
    } else {
      JoinsOn(piece, Joined(First(rest, c - 1)), t, i);
    }
  }

  lemma SplitJoinAtCut(t: string, i: nat, piece: string, c: nat)
    requires i < |t| && !SepAt(t, i) && |piece| == TOPICLEN && c >= 1
    ensures Joined(First(Scan(t, i, piece), c)) != piece + t[i..] && !Fit(t, i, |piece|)
  {
    var rest := Scan(t, i + 3, "");
    assert |Head(t, i)| >= 1;
    JoinedFirst(piece, rest, c);
    if c == 1 || rest == [] {
      SamePrefix(piece, "", t[i..]);
      assert piece + "" == piece;
    } else {
      CutJoinsNot(piece, Joined(First(rest, c - 1)), t, i);
    }
  }

  lemma JoinsOn(piece: string, u: string, t: string, i: nat)
    requires i < |t| && SepAt(t, i)
    ensures piece + SEPARATOR + u == piece + t[i..] <==> u == "" + t[i + 3..]
  {
    assert t[i..] == SEPARATOR + t[i + 3..];
    assert piece + SEPARATOR + u == piece + (SEPARATOR + u);
    SamePrefix(piece, SEPARATOR + u, t[i..]);
    SamePrefix(SEPARATOR, u, t[i + 3..]);
    assert "" + t[i + 3..] == t[i + 3..];
  }

  lemma CutJoinsNot(piece: string, u: string, t: string, i: nat)
    requires i < |t| && !SepAt(t, i)
    ensures piece + SEPARATOR + u != piece + t[i..]
  {
    var v := SEPARATOR + u;
    assert piece + SEPARATOR + u == piece + v;
    SamePrefix(piece, v, t[i..]);
    assert v[0] == ' ' && v[1] == '|' && v[2] == ' ';
    StartsWithSeparator(t, i);
  }

  lemma StartsWithSeparator(t: string, i: nat)
    requires i < |t|
    ensures var v := t[i..]; |v| >= 3 && v[0] == ' ' && v[1] == '|' && v[2] == ' ' <==> SepAt(t, i)
  {
  }

  /** There is something to split unless there is nothing left. */
  lemma {:induction false} ScanSome(t: string, i: nat, piece: string)
    requires i <= |t|
    ensures Scan(t, i, piece) == [] <==> i == |t| && piece == ""
    decreases |t| - i
  {
    if i < |t| && !(SepAt(t, i) || |piece| >= TOPICLEN) {
      ScanSome(t, i + 1, piece + [t[i]]);
    }
  }

  // ---------------------------------------------------------------- what pieces look like

  predicate HasSeparator(p: string) {
    exists i: nat :: i < |p| && SepAt(p, i)
  }

  predicate EndsOpen(p: string) {
    |p| >= 2 && p[|p| - 2] == ' ' && p[|p| - 1] == '|'
  }

  /** Topics that survive joining and splitting. */
  predicate Splittable(ts: seq<string>) {
    && (forall i :: 0 <= i < |ts| ==> |ts[i]| <= TOPICLEN && !HasSeparator(ts[i]))
    && (forall i :: 0 <= i < |ts| - 1 ==> !EndsOpen(ts[i]))
    && (ts != [] ==> ts[|ts| - 1] != "")
  }

  /** The first piece is what the text shows up to the next separator or the end. */
  lemma {:induction false} HeadIs(t: string, i: nat)
    requires i <= |t|
    ensures var p := Head(t, i);
      && i + |p| <= |t| && (forall x :: 0 <= x < |p| ==> p[x] == t[i + x])
      && (if Tail(t, i) != [] then SepAt(t, i + |p|) else i + |p| == |t|)
    decreases |t| - i
  {
    if i < |t| && !SepAt(t, i) {
      HeadIs(t, i + 1);
    }
  }

  /** A piece starts with a separator only where the text has one. */
  lemma HeadStartsSo(t: string, i: nat)
    requires i <= |t|
    ensures SepAt(Head(t, i), 0) ==> SepAt(t, i)
  {
    HeadIs(t, i);
  }

  lemma {:induction false} HeadClean(t: string, i: nat)
    requires i <= |t|
    ensures !HasSeparator(Head(t, i)) && (Tail(t, i) != [] ==> !EndsOpen(Head(t, i)))
    decreases |t| - i
  {
    if i < |t| && !SepAt(t, i) {
      HeadClean(t, i + 1);
      HeadIs(t, i);
      var p, q := Head(t, i), Head(t, i + 1);
      if HasSeparator(p) {
        var k: nat :| k < |p| && SepAt(p, k);
        HeadStartsSo(t, i);
        if k > 0 {
          assert SepAt(q, k - 1);
        }
      }
    }
  }

  predicate AllClean(ps: seq<string>) {
    && (forall j :: 0 <= j < |ps| ==> !HasSeparator(ps[j]))
    && (forall j :: 0 <= j < |ps| - 1 ==> !EndsOpen(ps[j]))
  }

  lemma CleanOneMore(p: string, ps: seq<string>)
    requires AllClean(ps) && !HasSeparator(p) && (ps != [] ==> !EndsOpen(p))
    ensures AllClean([p] + ps)
  {
    var all := [p] + ps;
    assert forall j :: 1 <= j < |all| ==> all[j] == ps[j - 1];
  }

  lemma {:induction false} TailClean(t: string, i: nat)
    requires i <= |t|
    ensures AllClean(Tail(t, i))
    decreases |t| - i
  {
    if i < |t| {
      if SepAt(t, i) {
        TailClean(t, i + 3);
        HeadClean(t, i + 3);
        CleanOneMore(Head(t, i + 3), Tail(t, i + 3));
      } else {
        TailClean(t, i + 1);
      }
    }
  }

  /** Splitting a text whose pieces fit yields its pieces. */
  lemma {:induction false} ScanPieces(t: string, i: nat, piece: string)
    requires i <= |t| && Fit(t, i, |piece|)
    ensures Scan(t, i, piece) ==
      if Tail(t, i) == [] && piece + Head(t, i) == "" then [] else [piece + Head(t, i)] + Tail(t, i)
    decreases |t| - i
  {
    if i < |t| {
      if SepAt(t, i) {
        FitAtSep(t, i, |piece|);
        ScanPieces(t, i + 3, "");
        ScanPiecesAtSep(t, i, piece);
      } else {
        var more, h := piece + [t[i]], Head(t, i + 1);
        ScanPieces(t, i + 1, more);
        assert more + h == piece + Head(t, i);
        assert more + h != "";
        hide Head, Tail, Fit;
      }
    } else {
      assert piece + "" == piece && [piece] + [] == [piece];
    }
  }

  lemma ScanPiecesAtSep(t: string, i: nat, piece: string)
    requires i < |t| && SepAt(t, i) && i + 3 < |t|
    requires Scan(t, i + 3, "") ==
      if Tail(t, i + 3) == [] && "" + Head(t, i + 3) == "" then [] else ["" + Head(t, i + 3)] + Tail(t, i + 3)
    ensures Scan(t, i, piece) == [piece + Head(t, i)] + Tail(t, i)
  {
    HeadIs(t, i + 3);
    assert "" + Head(t, i + 3) == Head(t, i + 3) && piece + "" == piece;
    assert Scan(t, i + 3, "") == Tail(t, i);
  }

  /** Splitting a join gives back the topics exactly when they are splittable. */
  lemma {:induction false} JoinSplit(ts: seq<string>)
    ensures Scan(Joined(ts), 0, "") == ts <==> Splittable(ts)
  {
    if Scan(Joined(ts), 0, "") == ts {
      JoinSplitOnly(ts);
    }
    if Splittable(ts) {
      SplittableSplits(ts);
    }
  }

  lemma JoinSplitOnly(ts: seq<string>)
    requires Scan(Joined(ts), 0, "") == ts
    ensures Splittable(ts)
  {
    var t := Joined(ts);
    SplitJoin(t, 0, "", |ts| + 1);
    assert First(ts, |ts| + 1) == ts && "" + t[0..] == t;
    assert Fit(t, 0, 0);
    ScanPieces(t, 0, "");
    HeadClean(t, 0);
    TailClean(t, 0);
    assert "" + Head(t, 0) == Head(t, 0);
    if ts != [] {
      assert ts == [Head(t, 0)] + Tail(t, 0);
      CleanOneMore(Head(t, 0), Tail(t, 0));
      forall i | 0 <= i < |ts| ensures |ts[i]| <= TOPICLEN {
        assert i > 0 ==> ts[i] == Tail(t, 0)[i - 1];
      }
    }
  }

  /** Inside a topic the text shows no separator, not even one that it shares with the separator behind the topic. */
  lemma NoSepInside(t: string, at: nat, p: string, k: nat)
    requires at + |p| <= |t| && (forall x :: at <= x < at + |p| ==> t[x] == p[x - at]) && k < |p| && !HasSeparator(p)
    requires at + |p| == |t| || (SepAt(t, at + |p|) && !EndsOpen(p))
    ensures !SepAt(t, at + k)
  {
    assert k + 3 <= |p| ==> !SepAt(p, k);
  }

  /** A splittable topic is read to its end, with `k` characters of it read already. */
  lemma {:induction false} ScanOne(t: string, at: nat, p: string, k: nat)
    requires at + |p| <= |t| && t[at..at + |p|] == p && k <= |p| <= TOPICLEN && !HasSeparator(p)
    requires at + |p| == |t| || (SepAt(t, at + |p|) && !EndsOpen(p))
    ensures Scan(t, at + k, p[..k]) == Scan(t, at + |p|, p)
    decreases |p| - k
  {
    if k == |p| {
      assert p[..k] == p;
    } else {
      assert forall x :: at <= x < at + |p| ==> t[x] == t[at..at + |p|][x - at];
      NoSepInside(t, at, p, k);
      assert p[..k] + [t[at + k]] == p[..k + 1];
      ScanOne(t, at, p, k + 1);
    }
  }

  lemma {:induction false} ScanFrom(t: string, at: nat, ts: seq<string>)
    requires Splittable(ts) && at <= |t| && t[at..] == Joined(ts)
    ensures Scan(t, at, "") == ts
    decreases |ts|
  {
    if ts != [] {
      var p := ts[0];
      assert t[at..at + |p|] == t[at..][..|p|] == p;
      if |ts| == 1 {
        ScanOne(t, at, p, 0);
        assert Scan(t, |t|, p) == [p];
      } else {
        var u := Joined(ts[1..]);
        assert t[at..] == p + SEPARATOR + u;
        assert forall x :: at <= x < |t| ==> t[x] == t[at..][x - at];
        assert SepAt(t, at + |p|);
        ScanOne(t, at, p, 0);
        assert t[at + |p| + 3..] == t[at..][|p| + 3..] == u;
        TailSplittable(ts);
        ScanFrom(t, at + |p| + 3, ts[1..]);
      }
    }
  }

  lemma TailSplittable(ts: seq<string>)
    requires |ts| > 1 && Splittable(ts)
    ensures Splittable(ts[1..])
  {
  }

  lemma SplittableSplits(ts: seq<string>)
    requires Splittable(ts)
    ensures Scan(Joined(ts), 0, "") == ts
  {
    assert Joined(ts)[0..] == Joined(ts);
    ScanFrom(Joined(ts), 0, ts);
  }

  // ---------------------------------------------------------------- the commands

  function StripAll(ts: seq<string>): (r: seq<string>)
    ensures |r| == |ts| && forall i :: 0 <= i < |ts| ==> r[i] == Strip(ts[i])
  {
    seq(|ts|, i requires 0 <= i < |ts| => Strip(ts[i]))
  }

  /** The topics that `gettopic` leaves in the table. */
  function Kept(t: string): seq<string> {
    First(StripAll(Scan(t, 0, "")), TOPICS_MAX)
  }

  lemma {:induction false} ScanShort(t: string, i: nat, piece: string)
    requires |piece| <= TOPICLEN
    ensures AllShort(Scan(t, i, piece))
    decreases |t| - i
  {
    if i < |t| {
      if SepAt(t, i) || |piece| >= TOPICLEN {
        ScanShort(t, i + 3, "");
        ShortOneMore(piece, Scan(t, i + 3, ""));
      } else {
        ScanShort(t, i + 1, piece + [t[i]]);
      }
    }
  }

  lemma {:induction false} StripShorter(s: string, isColor: bool, inColor: bool)
    ensures |StripCntrl(s)| <= |s| && |StripMirc(s, isColor, inColor)| <= |s|
    decreases s
  {
    if s != "" {
      StripShorter(s[1..], isColor, false);
      StripShorter(s[1..], isColor, inColor);
      StripShorter(s[1..], !isColor, !inColor);
    }
  }

  /** Every topic of a line finds room in its column. */
  lemma KeptShort(t: string)
    ensures |Kept(t)| <= TOPICS_MAX && forall i :: 0 <= i < |Kept(t)| ==> |Kept(t)[i]| <= MESSAGE_MAX
  {
    var ps := Scan(t, 0, "");
    ScanShort(t, 0, "");
    forall i | 0 <= i < |Kept(t)| ensures |Kept(t)[i]| <= MESSAGE_MAX {
      assert Kept(t)[i] == Strip(ps[i]);
      StripShorter(ps[i], false, false);
      StripShorter(StripMirc(ps[i], false, false), false, false);
    }
  }

  /** What the table is to hold once the topics `done` are read; a bot that may not write leaves it alone. */
  ghost predicate Holds(rows: seq<Row>, was: seq<Row>, done: seq<string>, readOnly: bool) {
    if readOnly then rows == was && (done != [] ==> |was| < TOPICS_MAX)
    else rows == Loaded(StripAll(done)) && |done| <= TOPICS_MAX
  }

  /** `gettopic`. A bot that may not write counts the topics that are there already. */
  method GetTopic(table: TopicTable, t: string, readOnly: bool) returns (ok: bool)
    modifies table
    ensures table.topicChange && table.topicReset == old(table.topicReset)
    ensures !readOnly ==> table.rows == Loaded(Kept(t)) && Lists(table.rows, Kept(t))
    ensures !readOnly ==> (ok <==> |Scan(t, 0, "")| <= TOPICS_MAX)
    ensures readOnly ==> table.rows == old(table.rows) && (ok <==> t == "" || |table.rows| < TOPICS_MAX)
  {
    ghost var was, done: seq<string>, all := table.rows, [], Scan(t, 0, "");
    table.DelTopics(readOnly);
    var i: nat, thistopic := 0, "";
    assert Holds(table.rows, was, done, readOnly) && all == done + Scan(t, 0, "");
    hide *;
    while i < |t|
      invariant Holds(table.rows, was, done, readOnly) && table.topicChange && table.topicReset == old(table.topicReset)
      invariant all == done + Scan(t, i, thistopic)
      decreases |t| - i
    {
      if SepAt(t, i) || |thistopic| >= TOPICLEN {
        PieceEnds(t, i, thistopic, done);
        ok := StoreOne(table, thistopic, was, done, readOnly);
        if !ok {
          NotAll(t, table.rows, was, done, thistopic, Scan(t, i + 3, ""), readOnly);
          return;
        }
        done := done + [thistopic];
        i, thistopic := i + 3, "";
      } else {
        PieceGrows(t, i, thistopic);
        i, thistopic := i + 1, thistopic + [t[i]];
      }
    }
    TextEnds(t, i, thistopic);
    if |thistopic| > 0 {
      ok := StoreOne(table, thistopic, was, done, readOnly);
      if !ok {
        NotAll(t, table.rows, was, done, thistopic, [], readOnly);
        return;
      }
      done := done + [thistopic];
    }
    AllStored(t, table.rows, was, done, readOnly);
    return true;
  }

  lemma PieceEnds(t: string, i: nat, piece: string, done: seq<string>)
    requires i < |t| && (SepAt(t, i) || |piece| >= TOPICLEN)
    ensures done + Scan(t, i, piece) == done + ([piece] + Scan(t, i + 3, "")) == (done + [piece]) + Scan(t, i + 3, "")
  {
    var rest := Scan(t, i + 3, "");
    assert done + ([piece] + rest) == (done + [piece]) + rest;
  }

  lemma PieceGrows(t: string, i: nat, piece: string)
    requires i < |t| && !SepAt(t, i) && |piece| < TOPICLEN
    ensures Scan(t, i, piece) == Scan(t, i + 1, piece + [t[i]])
  {
  }

  lemma TextEnds(t: string, i: nat, piece: string)
    requires i >= |t|
    ensures Scan(t, i, piece) == if piece == "" then [] else [piece] + []
  {
  }

  lemma AllStored(t: string, rows: seq<Row>, was: seq<Row>, done: seq<string>, readOnly: bool)
    requires Scan(t, 0, "") == done && Holds(rows, was, done, readOnly)
    ensures !readOnly ==> rows == Loaded(Kept(t)) && Lists(rows, Kept(t)) && |Scan(t, 0, "")| <= TOPICS_MAX
    ensures readOnly ==> rows == was && (t == "" || |rows| < TOPICS_MAX)
  {
    ScanSome(t, 0, "");
    KeptShort(t);
    LoadedLists(Kept(t));
    hide Lists, Scan, Loaded;
  }

  /** One stripped topic more. */
  method StoreOne(table: TopicTable, topic: string, ghost was: seq<Row>, ghost done: seq<string>, readOnly: bool)
    returns (ok: bool)
    requires Holds(table.rows, was, done, readOnly) && table.topicChange
    modifies table
    ensures ok <==> if readOnly then |was| < TOPICS_MAX else |done| < TOPICS_MAX
    ensures Holds(table.rows, was, if ok then done + [topic] else done, readOnly)
    ensures table.topicChange && table.topicReset == old(table.topicReset)
  {
    OneMoreLoaded(done, topic);
    hide Strip, StripAll, AfterInsert, Loaded;
    var text := StripText(topic);
    ok := table.AddNewTopic(text, readOnly);
  }

  lemma OneMoreLoaded(done: seq<string>, topic: string)
    ensures Loaded(StripAll(done + [topic])) == AfterInsert(Loaded(StripAll(done)), |done| + 1, Strip(topic))
  {
    var all := StripAll(done + [topic]);
    assert all[..|done|] == StripAll(done);
    hide AfterInsert, Strip;
  }

  /** A topic finds no room. */
  lemma NotAll(t: string, rows: seq<Row>, was: seq<Row>, done: seq<string>, topic: string, rest: seq<string>,
               readOnly: bool)
    requires Scan(t, 0, "") == done + ([topic] + rest) && Holds(rows, was, done, readOnly)
    requires if readOnly then |was| >= TOPICS_MAX else |done| >= TOPICS_MAX
    ensures !readOnly ==> rows == Loaded(Kept(t)) && Lists(rows, Kept(t)) && |Scan(t, 0, "")| > TOPICS_MAX
    ensures readOnly ==> rows == was && t != "" && |rows| >= TOPICS_MAX
  {
    ScanSome(t, 0, "");
    KeptShort(t);
    LoadedLists(Kept(t));
    hide Scan, Lists, Loaded;
    if !readOnly {
      assert First(StripAll(done + ([topic] + rest)), TOPICS_MAX) == StripAll(done);
    }
  }

  /** The TOPIC command for a list of topics. */
  function TopicLine(name: string, ts: seq<string>): string {
    Clip(Clip("TOPIC " + name + " :", LINE_MAX) + Joined(ts), LINE_MAX)
  }

  /** `settopic`: the command to queue, if any. */
  method SetTopic(table: TopicTable, name: string) returns (command: Option<string>)
    modifies table
    ensures table.rows == old(table.rows) && !table.topicChange
    ensures table.rows != [] ==>
      command == Some(TopicLine(name, Messages(Ordered(table.rows)))) && table.topicReset == old(table.topicReset)
    ensures table.rows == [] ==>
      && command == (if old(table.topicReset) then Some(Clip("TOPIC " + name + " :", LINE_MAX)) else None)
      && !table.topicReset
  {
    var topics := Messages(Ordered(table.rows));
    table.topicChange := false;
    if topics == [] {
      command := if table.topicReset then Some(Clip("TOPIC " + name + " :", LINE_MAX)) else None;
      table.topicReset := false;
      return;
    }
    var line := JoinTopics(name, topics);
    command := Some(line);
  }

  method JoinTopics(name: string, topics: seq<string>) returns (buffer: string)
    ensures buffer == TopicLine(name, topics)
  {
    buffer := Clip("TOPIC " + name + " :", LINE_MAX);
    ghost var start := buffer;
    var topic := 0;
    assert start + Joined(topics[..0]) == start;
    while topic < |topics|
      invariant 0 <= topic <= |topics|
      invariant buffer == Clip(start + Joined(topics[..topic]), LINE_MAX)
    {
      JoinsOne(start, topics, topic);
      hide Joined, Appended, Clip;
      if topic > 0 {
        buffer := Appended(buffer, SEPARATOR, LINE_MAX);
      }
      buffer := Appended(buffer, topics[topic], LINE_MAX);
      topic := topic + 1;
    }
    assert topics[..topic] == topics;
  }

  lemma JoinsOne(start: string, topics: seq<string>, k: nat)
    requires k < |topics|
    ensures var b := Clip(start + Joined(topics[..k]), LINE_MAX);
      Clip(start + Joined(topics[..k + 1]), LINE_MAX)
        == Appended(if k > 0 then Appended(b, SEPARATOR, LINE_MAX) else b, topics[k], LINE_MAX)
  {
    hide Joined, Appended, Clip;
    JoinedLast(topics, k);
    var was := start + Joined(topics[..k]);
    if k > 0 {
      AppendedClips(was, SEPARATOR, LINE_MAX);
      AppendedClips(was + SEPARATOR, topics[k], LINE_MAX);
      assert was + SEPARATOR + topics[k] == start + Joined(topics[..k + 1]);
    } else {
      AppendedClips(was, topics[k], LINE_MAX);
      NoneJoined(topics);
      assert was + topics[k] == start + Joined(topics[..k + 1]);
    }
  }

  lemma NoneJoined(ts: seq<string>)
    ensures Joined(ts[..0]) == ""
  {
  }

  lemma {:induction false} JoinedLast(ts: seq<string>, k: nat)
    requires k < |ts|
    ensures Joined(ts[..k + 1]) == if k == 0 then ts[0] else Joined(ts[..k]) + SEPARATOR + ts[k]
    decreases k
  {
    if k > 0 {
      JoinedLast(ts[1..], k - 1);
      assert Joined(ts[..k + 1]) == ts[0] + SEPARATOR + Joined(ts[..k + 1][1..]);
      assert ts[..k + 1][1..] == ts[1..][..k];
      if k > 1 {
        assert ts[..k][1..] == ts[1..][..k - 1];
        assert ts[0] + SEPARATOR + (Joined(ts[1..][..k - 1]) + SEPARATOR + ts[k]) ==
               (ts[0] + SEPARATOR + Joined(ts[1..][..k - 1])) + SEPARATOR + ts[k];
      }
    }
  }

  // ---------------------------------------------------------------- there and back

  /** Reading a topic line and sending it again gives the same text if and only if no piece is too long, there are
      at most twenty, and the text does not end in a separator. */
  lemma {:induction false} TopicRoundTrip(t: string)
    requires ControlFree(t)
    ensures Joined(Kept(t)) == t <==> Fit(t, 0, 0) && |Scan(t, 0, "")| <= TOPICS_MAX
  {
    ScanControlFree(t, 0, "");
    assert StripAll(Scan(t, 0, "")) == Scan(t, 0, "");
    SplitJoin(t, 0, "", TOPICS_MAX);
    assert "" + t[0..] == t;
  }

  /** Splitting and joining never makes a text longer. */
  lemma {:induction false} JoinedShort(t: string, i: nat, piece: string, c: nat)
    requires c >= 1
    ensures |Joined(First(Scan(t, i, piece), c))| <= |piece| + if i <= |t| then |t| - i else 0
    decreases |t| - i
  {
    if i < |t| && (SepAt(t, i) || |piece| >= TOPICLEN) {
      var rest := Scan(t, i + 3, "");
      JoinedFirst(piece, rest, c);
      if c > 1 && rest != [] {
        JoinedShort(t, i + 3, "", c - 1);
      }
    } else if i < |t| {
      JoinedShort(t, i + 1, piece + [t[i]], c);
    }
  }

  /** The command that is sent for a topic line that was read carries the same text if and only if, besides, it fits
      the line buffer. */
  lemma {:induction false} TopicSentBack(name: string, t: string)
    requires ControlFree(t)
    ensures TopicLine(name, Kept(t)) == "TOPIC " + name + " :" + t
      <==> Fit(t, 0, 0) && |Scan(t, 0, "")| <= TOPICS_MAX && |"TOPIC " + name + " :" + t| <= LINE_MAX
  {
    TopicRoundTrip(t);
    ScanControlFree(t, 0, "");
    assert StripAll(Scan(t, 0, "")) == Scan(t, 0, "");
    JoinedShort(t, 0, "", TOPICS_MAX);
    var h, j := "TOPIC " + name + " :", Joined(Kept(t));
    assert |j| <= |t|;
    if |h + t| <= LINE_MAX {
      assert Clip(h, LINE_MAX) == h && Clip(h + j, LINE_MAX) == h + j;
      SamePrefix(h, j, t);
    }
  }

  function TopicCommand(name: string, ts: seq<string>, now: int): Timed {
    Timed(now, Normal, PRIO_CHANNEL_HANDLING, None, TopicLine(name, ts))
  }

  /** And what leaves carries it whole, and ends the line, if and only if there is room for the newline, too. */
  lemma {:induction false} TopicLeaves(name: string, t: string, now: int)
    requires ControlFree(t) && '\n' !in name
    ensures Line(TopicCommand(name, Kept(t), now)) == "TOPIC " + name + " :" + t + "\n"
      <==> Fit(t, 0, 0) && |Scan(t, 0, "")| <= TOPICS_MAX && |"TOPIC " + name + " :" + t| < LINE_MAX
  {
    TopicSentBack(name, t);
    var whole, command := "TOPIC " + name + " :" + t, TopicLine(name, Kept(t));
    if Line(TopicCommand(name, Kept(t), now)) == whole + "\n" {
      NoNewline(name, t);
      EndsInNewline(command, whole);
    }
    hide TopicLine, Kept, Fit, Scan;
  }

  /** A cut line has the text, but not its newline. */
  lemma EndsInNewline(command: string, whole: string)
    requires Truncated(command + "\n", WRITE_BUFFER_LENGTH) == whole + "\n" && |command| <= LINE_MAX
    requires '\n' !in command
    ensures command == whole && |whole| < LINE_MAX
  {
    var sent := Truncated(command + "\n", WRITE_BUFFER_LENGTH);
    assert (whole + "\n")[..|whole|] == whole;
    assert command != whole + "\n" by {
      assert (whole + "\n")[|whole|] in whole + "\n";
    }
    assert |command| == LINE_MAX ==> sent == command;
    assert sent[..|sent| - 1] == whole;
  }

  lemma {:induction false} StripCntrlFree(s: string)
    ensures ControlFree(StripCntrl(s))
  {
    if s != "" {
      StripCntrlFree(s[1..]);
    }
  }

  lemma NoNewline(name: string, t: string)
    requires '\n' !in name
    ensures '\n' !in TopicLine(name, Kept(t))
  {
    var ts, h := Kept(t), "TOPIC " + name + " :";
    forall i | 0 <= i < |ts| ensures ControlFree(ts[i]) {
      StripCntrlFree(StripMirc(Scan(t, 0, "")[i], false, false));
    }
    JoinedControlFree(ts);
    var j := Joined(ts);
    hide Joined, Kept, Scan, StripCntrl, StripMirc;
    assert '\n' !in j;
    assert forall x :: x in Clip(h, LINE_MAX) ==> x in h;
    var whole := Clip(h, LINE_MAX) + j;
    assert forall x :: x in Clip(whole, LINE_MAX) ==> x in whole;
  }

  lemma {:induction false} ScanControlFree(t: string, i: nat, piece: string)
    requires ControlFree(t) && ControlFree(piece)
    ensures forall p :: p in Scan(t, i, piece) ==> Strip(p) == p
    decreases |t| - i
  {
    ControlFreeStays(piece);
    if i < |t| {
      if SepAt(t, i) || |piece| >= TOPICLEN {
        ScanControlFree(t, i + 3, "");
      } else {
        ScanControlFree(t, i + 1, piece + [t[i]]);
      }
    }
  }

  /** What is kept of a line that was joined; it is the join of these only if nothing was left over. */
  lemma KeptOfJoined(ts: seq<string>)
    requires forall i :: 0 <= i < |ts| ==> ControlFree(ts[i])
    ensures var s := Scan(Joined(ts), 0, "");
      Kept(Joined(ts)) == First(s, TOPICS_MAX) && (First(s, TOPICS_MAX) == ts ==> |s| <= TOPICS_MAX)
  {
    JoinedControlFree(ts);
    ScanControlFree(Joined(ts), 0, "");
    assert StripAll(Scan(Joined(ts), 0, "")) == Scan(Joined(ts), 0, "");
    assert "" + Joined(ts)[0..] == Joined(ts);
    SplitJoin(Joined(ts), 0, "", TOPICS_MAX);
  }

  /** The other way round: topics sent as one line come back as the same list if and only if they are splittable
      and at most twenty. */
  lemma {:induction false} ListRoundTrip(ts: seq<string>)
    requires forall i :: 0 <= i < |ts| ==> ControlFree(ts[i])
    ensures Kept(Joined(ts)) == ts <==> Splittable(ts) && |ts| <= TOPICS_MAX
  {
    KeptOfJoined(ts);
    JoinSplit(ts);
    hide Joined, Scan, Splittable, Kept, ControlFree;
  }

  lemma {:induction false} JoinedControlFree(ts: seq<string>)
    requires forall i :: 0 <= i < |ts| ==> ControlFree(ts[i])
    ensures ControlFree(Joined(ts))
  {
    if |ts| > 1 {
      JoinedControlFree(ts[1..]);
    }
  }

  // ---------------------------------------------------------------- colours

  predicate ColorCode(s: string) {
    forall i :: 0 <= i < |s| ==> '0' <= s[i] <= '9' || s[i] == ','
  }

  const COLOR: char := 3 as char

  lemma {:induction false} CodeGoes(code: string, rest: string)
    requires ColorCode(code)
    ensures StripMirc(code + rest, true, true) == StripMirc(rest, true, true)
  {
    if code == "" {
      assert code + rest == rest;
    } else {
      assert (code + rest)[1..] == code[1..] + rest;
      CodeGoes(code[1..], rest);
    }
  }

  lemma {:induction false} TextStays(text: string, rest: string, isColor: bool)
    requires ControlFree(text)
    ensures StripMirc(text + rest, isColor, false) == text + StripMirc(rest, isColor, false)
  {
    if text == "" {
      assert text + rest == rest;
    } else {
      assert (text + rest)[1..] == text[1..] + rest && text == [text[0]] + text[1..];
      TextStays(text[1..], rest, isColor);
    }
  }

  /** A coloured passage keeps its text and loses its colour: the two marks and the code behind the first, and nothing
      of the texts around it. */
  lemma {:induction false} ColorGoes(before: string, code: string, text: string, after: string)
    requires ControlFree(before) && ControlFree(text) && ControlFree(after) && ColorCode(code)
    requires text != "" && !ColorCode([text[0]])
    ensures Strip(before + [COLOR] + code + text + [COLOR] + after) == before + text + after
  {
    hide StripMirc, StripCntrl, ControlFree, ColorCode;
    var tail := [COLOR] + after;
    var colored := [COLOR] + (code + (text + tail));
    assert before + [COLOR] + code + text + [COLOR] + after == before + colored;
    TextStays(before, colored, false);
    ColorBegins(colored, code + (text + tail));
    CodeGoes(code, text + tail);
    FirstStays(text, tail);
    assert tail[1..] == after;
    AfterStays(after);
    var plain := before + (text + after);
    assert before + text + after == plain;
    FreeJoined(before, text, after);
    ControlFreeStays(plain);
  }

  lemma ColorBegins(s: string, more: string)
    requires s == [COLOR] + more
    ensures StripMirc(s, false, false) == StripMirc(more, true, true)
  {
    assert s[1..] == more;
  }

  lemma AfterStays(after: string)
    requires ControlFree(after)
    ensures StripMirc(after, false, true) == after
  {
    TextStays(after, "", false);
    assert after + "" == after;
  }

  lemma FreeJoined(a: string, b: string, c: string)
    requires ControlFree(a) && ControlFree(b) && ControlFree(c)
    ensures ControlFree(a + (b + c))
  {
  }

  lemma FirstStays(text: string, tail: string)
    requires ControlFree(text) && text != "" && !ColorCode([text[0]]) && tail != "" && tail[0] == COLOR
    ensures StripMirc(text + tail, true, true) == text + StripMirc(tail[1..], false, true)
  {
    hide StripMirc, ControlFree, ColorCode;
    var c, more := text[0], text[1..];
    NoCode(c);
    FreeParts(text);
    assert text == [c] + more && (text + tail)[0] == c && (text + tail)[1..] == more + tail;
    OneStays(text + tail, c, more + tail);
    TextStays(more, tail, true);
    MarkGoes(tail);
    Regroup(text, c, more, StripMirc(tail, true, false));
  }

  lemma FreeParts(text: string)
    requires ControlFree(text) && text != ""
    ensures !IsCntrl(text[0]) && ControlFree(text[1..])
  {
  }

  lemma Regroup(text: string, c: char, more: string, x: string)
    requires text == [c] + more
    ensures [c] + (more + x) == text + x
  {
  }

  lemma NoCode(c: char)
    requires !ColorCode([c])
    ensures !('0' <= c <= '9') && c != ','
  {
    assert [c][0] == c;
  }

  lemma OneStays(s: string, c: char, more: string)
    requires s != "" && s[0] == c && s[1..] == more && !IsCntrl(c) && !('0' <= c <= '9') && c != ','
    ensures StripMirc(s, true, true) == [c] + StripMirc(more, true, false)
  {
  }

  lemma MarkGoes(tail: string)
    requires tail != "" && tail[0] == COLOR
    ensures StripMirc(tail, true, false) == StripMirc(tail[1..], false, true)
  {
  }

  /** Of the characters of a text exactly those below the space, and the one of number 127, are dropped. */
  lemma {:induction false} ControlsGo(s: string, c: char)
    ensures c in StripCntrl(s) <==> c in s && c as int >= 32 && c as int != 127
  {
    if s != "" {
      ControlsGo(s[1..], c);
      assert s == [s[0]] + s[1..];
    }
  }

  lemma {:induction false} NoSeparator(t: string, i: nat)
    requires i <= |t| && forall k :: i <= k < |t| ==> !SepAt(t, k)
    ensures Head(t, i) == t[i..] && Tail(t, i) == []
    decreases |t| - i
  {
    if i < |t| {
      NoSeparator(t, i + 1);
    }
  }

  /** A text without a separator is kept whole if and only if it has at most 250 characters. */
  lemma {:induction false} OneTopic(t: string)
    requires forall k :: 0 <= k < |t| ==> !SepAt(t, k)
    ensures Joined(Scan(t, 0, "")) == t <==> |t| <= 250
  {
    NoSeparator(t, 0);
    SplitJoin(t, 0, "", |Scan(t, 0, "")| + 1);
    assert t[0..] == t && "" + t == t;
  }
}
