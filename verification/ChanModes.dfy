/** Channel mode lines: `filteroutchanmodes` of misc.c, `getmodepol`, `nthmode` and `getnthmode` of ds.c. */
module ChanModes {
  import opened Chars

  /** One mode change; `polar` is `x` before the first sign of a line. */
  datatype Change = Change(polar: char, letter: char)

  predicate IsSign(c: char) {
    c == '+' || c == '-'
  }

  /** What a mode line means. */
  function Pairs(line: string, polar: char): seq<Change> {
    if line == "" then []
    else if IsSign(line[0]) then Pairs(line[1..], line[0])
    else [Change(polar, line[0])] + Pairs(line[1..], polar)
  }

  function LastSign(line: string, polar: char): char {
    if line == "" then polar
    else LastSign(line[1..], if IsSign(line[0]) then line[0] else polar)
  }

  lemma {:induction false} PairsConcat(a: string, b: string, polar: char)
    ensures Pairs(a + b, polar) == Pairs(a, polar) + Pairs(b, LastSign(a, polar))
  {
    if a == "" {
      assert a + b == b;
    } else {
      assert (a + b)[1..] == a[1..] + b;
      PairsConcat(a[1..], b, if IsSign(a[0]) then a[0] else polar);
    }
  }

  lemma {:induction false} LetterShows(s: string, k: nat, polar: char)
    requires k < |s| && !IsSign(s[k])
    ensures Pairs(s, polar) != []
  {
    if k > 0 {
      LetterShows(s[1..], k - 1, if IsSign(s[0]) then s[0] else polar);
    }
  }

  // ---------------------------------------------------------------- filteroutchanmodes

  function Without(p: seq<Change>, what: string): seq<Change> {
    if p == [] then []
    else (if p[0].letter in what then [] else [p[0]]) + Without(p[1..], what)
  }

  /** What the copying loop writes when the buffer has room. */
  function Copied(from: string, what: string, active: char): (r: string)
    ensures |r| <= |from|
  {
    if from == "" then ""
    else if IsSign(from[0]) then (if from[0] == active then "" else [from[0]]) + Copied(from[1..], what, from[0])
    else (if from[0] in what then "" else [from[0]]) + Copied(from[1..], what, active)
  }

  /** Without the signs at the end. */
  function Stripped(s: string): (r: string)
    ensures r <= s && (r != "" ==> !IsSign(r[|r| - 1]))
  {
    if s != "" && IsSign(s[|s| - 1]) then Stripped(s[..|s| - 1]) else s
  }

  function Filtered(from: string, what: string, room: nat): string {
    Stripped(Clip(Copied(from, what, 'x'), room))
  }

  method FilterOutChanModes(from: string, what: string, room: nat) returns (to: string)
    ensures to == Filtered(from, what, room)
  {
    to := CopyModes(from, what, room);
    to := StripSigns(to);
  }

  /** The first loop of `filteroutchanmodes`. */
  method CopyModes(from: string, what: string, room: nat) returns (to: string)
    ensures to == Clip(Copied(from, what, 'x'), room)
  {
    var polar, active := 'x', 'x';
    to := "";
    var i := 0;
    ghost var whole := Copied(from, what, 'x');
    ghost var left := whole;
    assert from[0..] == from && to + left == whole;
    while i < |from| && |to| < room
      invariant 0 <= i <= |from| && |to| <= room && polar == active
      invariant left == Copied(from[i..], what, active) && to + left == whole
    {
      ghost var was, before := to, left;
      assert from[i..][0] == from[i] && from[i..][1..] == from[i + 1..];
      if IsSign(from[i]) {
        polar := from[i];
        if active != polar {
          to := to + [polar];
          active := polar;
        }
      } else if from[i] !in what {
        to := to + [from[i]];
      }
      i := i + 1;
      left := Copied(from[i..], what, active);
      Moved(was, before, to, left);
    }
  }

  lemma Moved(to: string, left: string, to': string, left': string)
    requires (to' == to && left == "" + left') || exists c :: to' == to + [c] && left == [c] + left'
    ensures to' + left' == to + left
  {
  }

  /** The second loop of `filteroutchanmodes`. */
  method StripSigns(s: string) returns (to: string)
    ensures to == Stripped(s)
  {
    to := s;
    while to != "" && IsSign(to[|to| - 1])
      invariant Stripped(to) == Stripped(s)
      decreases |to|
    {
      to := to[..|to| - 1];
    }
  }

  lemma {:induction false} CopiedMeans(from: string, what: string, active: char)
    ensures Pairs(Copied(from, what, active), active) == Without(Pairs(from, active), what)
  {
    if from != "" {
      var sign := if IsSign(from[0]) then from[0] else active;
      CopiedMeans(from[1..], what, sign);
      var rest := Copied(from[1..], what, sign);
      assert ([from[0]] + rest)[1..] == rest;
      if !IsSign(from[0]) && from[0] !in what {
        PairsConcat([from[0]], rest, active);
        var p := Pairs(from, active);
        assert p[1..] == Pairs(from[1..], active);
      } else {
        assert Copied(from, what, active) == (if from[0] == active || !IsSign(from[0]) then rest else [from[0]] + rest);
        var p := Pairs(from, active);
        assert !IsSign(from[0]) ==> p[1..] == Pairs(from[1..], active);
        assert [] + Without(Pairs(from[1..], active), what) == Without(Pairs(from[1..], active), what);
      }
    }
  }

  lemma {:induction false} StrippedMeans(s: string, polar: char)
    ensures Pairs(Stripped(s), polar) == Pairs(s, polar)
  {
    if s != "" && IsSign(s[|s| - 1]) {
      StrippedMeans(s[..|s| - 1], polar);
      assert s == s[..|s| - 1] + [s[|s| - 1]];
      PairsConcat(s[..|s| - 1], [s[|s| - 1]], polar);
    }
  }

  lemma {:induction false} StrippedRest(s: string, k: nat)
    requires |Stripped(s)| <= k <= |s|
    ensures forall i :: k <= i < |s| ==> IsSign(s[i])
  {
    if s != "" && IsSign(s[|s| - 1]) && k < |s| {
      StrippedRest(s[..|s| - 1], k);
    }
  }

  lemma {:induction false} NoLetters(s: string, polar: char)
    requires forall i :: 0 <= i < |s| ==> IsSign(s[i])
    ensures Pairs(s, polar) == []
  {
    if s != "" {
      NoLetters(s[1..], s[0]);
    }
  }

  /** Cutting a line cuts its meaning, unless only signs at the end are lost. */
  lemma CutMeans(s: string, room: nat)
    requires room < |s|
    ensures Pairs(s[..room], 'x') <= Pairs(s, 'x')
    ensures Pairs(s[..room], 'x') == Pairs(s, 'x') <==> |Stripped(s)| <= room
  {
    var head, rest := s[..room], s[room..];
    var sign, n := LastSign(head, 'x'), |Stripped(s)|;
    assert s == head + rest;
    PairsConcat(head, rest, 'x');
    if n <= room {
      StrippedRest(s, room);
      NoLetters(rest, sign);
    } else {
      assert Stripped(s)[n - 1] == s[n - 1] == rest[n - 1 - room];
      LetterShows(rest, n - 1 - room, sign);
      assert |Pairs(s, 'x')| > |Pairs(head, 'x')| by {
        hide Pairs, LastSign;
      }
    }
  }

  /** The output means the input without the excluded letters, exactly when what remains fits, and is never
      left with a sign at its end; what is cut off is the end of the meaning. */
  lemma {:induction false} FilterMeans(from: string, what: string, room: nat)
    ensures var to, kept := Filtered(from, what, room), Without(Pairs(from, 'x'), what);
      && Pairs(to, 'x') <= kept
      && (Pairs(to, 'x') == kept <==> |Stripped(Copied(from, what, 'x'))| <= room)
      && (|from| <= room ==> Pairs(to, 'x') == kept)
      && (to != "" ==> !IsSign(to[|to| - 1]))
      && |to| <= room
  {
    var s := Copied(from, what, 'x');
    CopiedMeans(from, what, 'x');
    StrippedMeans(Clip(s, room), 'x');
    if |s| > room {
      CutMeans(s, room);
    }
    hide Pairs, Without, Copied;
  }

  // ---------------------------------------------------------------- getmodepol

  /** The sign of the first change of a mode, `x` for a mode that does not occur. */
  function Polar(p: seq<Change>, mode: char): char {
    if p == [] then 'x' else if p[0].letter == mode then p[0].polar else Polar(p[1..], mode)
  }

  method GetModePol(line: string, mode: char) returns (r: char)
    ensures r == Polar(Pairs(line, 'x'), mode)
  {
    var polar := 'x';
    var i := 0;
    assert line[0..] == line;
    while i < |line|
      invariant 0 <= i <= |line|
      invariant Polar(Pairs(line[i..], polar), mode) == Polar(Pairs(line, 'x'), mode)
    {
      ghost var rest := Pairs(line[i + 1..], polar);
      if IsSign(line[i]) {
        polar := line[i];
      } else {
        assert Pairs(line[i..], polar)[1..] == rest;
        if line[i] == mode {
          return polar;
        }
      }
      i := i + 1;
    }
    return 'x';
  }

  lemma {:induction false} PolarWithout(p: seq<Change>, what: string, mode: char)
    ensures Polar(Without(p, what), mode) == if mode in what then 'x' else Polar(p, mode)
  {
    if p != [] {
      PolarWithout(p[1..], what, mode);
      var rest := Without(p[1..], what);
      assert Without(p, what) == if p[0].letter in what then rest else [p[0]] + rest;
      assert ([p[0]] + rest)[1..] == rest;
    }
  }

  /** Filtering leaves the sign of the kept modes alone and makes the removed ones unknown. */
  lemma {:induction false} FilterKeepsPolar(from: string, what: string, room: nat, mode: char)
    requires |Stripped(Copied(from, what, 'x'))| <= room
    ensures Polar(Pairs(Filtered(from, what, room), 'x'), mode)
         == if mode in what then 'x' else Polar(Pairs(from, 'x'), mode)
  {
    FilterMeans(from, what, room);
    PolarWithout(Pairs(from, 'x'), what, mode);
  }

  // ---------------------------------------------------------------- nthmode, getnthmode

  datatype Kind = Op | Deop | Voice | Devoice | Ban | Unban | WithParams | WithoutParams | Unknown

  /** What kind of change a pair is; a limit needs its sign. */
  function KindOf(c: Change): Kind {
    var set_ := c.polar == '+';
    if c.letter == 'o' then if set_ then Op else Deop
    else if c.letter == 'v' then if set_ then Voice else Devoice
    else if c.letter == 'b' then if set_ then Ban else Unban
    else if c.letter in "psitnmcC" then WithoutParams
    else if c.letter == 'l' then if set_ then WithParams else if c.polar == '-' then WithoutParams else Unknown
    else if c.letter == 'k' then WithParams
    else Unknown
  }

  /** The kind that `nthmode` reports: a limit before the first sign gets that of the mode before it. */
  function KindAt(p: seq<Change>, i: int): Kind
    decreases i
  {
    if !(0 <= i < |p|) then Unknown
    else if p[i] == Change('x', 'l') then KindAt(p, i - 1)
    else KindOf(p[i])
  }

  method NthMode(line: string, index: int) returns (kind: Kind)
    ensures kind == KindAt(Pairs(line, 'x'), index)
  {
    var polar := 'x';
    kind := Unknown;
    var n, i := 0, 0;
    ghost var p := Pairs(line, 'x');
    assert line[0..] == line && p[0..] == p;
    while i < |line|
      invariant 0 <= i <= |line| && 0 <= n <= |p| && (index < 0 || n <= index)
      invariant p[n..] == Pairs(line[i..], polar)
      invariant kind == KindAt(p, n - 1) && polar in "x+-"
    {
      if IsSign(line[i]) {
        polar := line[i];
      } else {
        assert p[n] == p[n..][0] == Change(polar, line[i]);
        assert p[n + 1..] == p[n..][1..] == Pairs(line[i + 1..], polar);
        match line[i] {
          case 'o' => kind := if polar == '+' then Op else Deop;
          case 'v' => kind := if polar == '+' then Voice else Devoice;
          case 'b' => kind := if polar == '+' then Ban else Unban;
          case 'p' | 's' | 'i' | 't' | 'n' | 'm' | 'c' | 'C' => kind := WithoutParams;
          case 'l' =>
            if polar == '+' {
              kind := WithParams;
            } else if polar == '-' {
              kind := WithoutParams;
            }
          case 'k' => kind := WithParams;
          case _ => kind := Unknown;
        }
        if n == index {
          return;
        }
        n := n + 1;
      }
      i := i + 1;
    }
    return Unknown;
  }

  /** The text that `getnthmode` reports, counting from 1. */
  function TextAt(p: seq<Change>, index: int): string {
    if 1 <= index <= |p| then [p[index - 1].polar, p[index - 1].letter] else ""
  }

  method GetNthMode(line: string, index: int) returns (to: string)
    ensures to == TextAt(Pairs(line, 'x'), index)
  {
    var polar := 'x';
    to := "";
    var n, i := 0, 0;
    ghost var p := Pairs(line, 'x');
    assert line[0..] == line && p[0..] == p;
    while i < |line|
      invariant 0 <= i <= |line| && 0 <= n <= |p| && (index <= 0 || n < index)
      invariant p[n..] == Pairs(line[i..], polar)
    {
      if IsSign(line[i]) {
        polar := line[i];
      } else {
        assert p[n] == p[n..][0] == Change(polar, line[i]);
        assert p[n + 1..] == p[n..][1..] == Pairs(line[i + 1..], polar);
        n := n + 1;
        if n == index {
          return [polar, line[i]];
        }
      }
      i := i + 1;
    }
  }

  /** Which kinds there are, by sign and letter: `+o` makes an operator, `-o` unmakes one, and so on. Without a sign a
      letter is read as with a minus, but for a limit. */
  lemma {:induction false} KindTable(p: seq<Change>, i: nat)
    requires i < |p| && p[i] != Change('x', 'l')
    ensures var c, plus, kind := p[i].letter, p[i].polar == '+', KindAt(p, i);
      && (kind == Op <==> c == 'o' && plus) && (kind == Deop <==> c == 'o' && !plus)
      && (kind == Voice <==> c == 'v' && plus) && (kind == Devoice <==> c == 'v' && !plus)
      && (kind == Ban <==> c == 'b' && plus) && (kind == Unban <==> c == 'b' && !plus)
      && (kind == WithParams <==> c == 'k' || (c == 'l' && plus))
      && (kind == WithoutParams <==>
            || c == 'p' || c == 's' || c == 'i' || c == 't' || c == 'n' || c == 'm' || c == 'c' || c == 'C'
            || (c == 'l' && p[i].polar == '-'))
  {
  }

  /** How many letters stand ahead of `k`, and which sign is in force there. */
  function LettersBefore(line: string, k: nat): nat
    requires k <= |line|
  {
    if k == 0 then 0 else LettersBefore(line, k - 1) + if IsSign(line[k - 1]) then 0 else 1
  }

  function SignBefore(line: string, k: nat): char
    requires k <= |line|
  {
    if k == 0 then 'x' else if IsSign(line[k - 1]) then line[k - 1] else SignBefore(line, k - 1)
  }

  lemma {:induction false} PairsTo(line: string, k: nat)
    requires k <= |line|
    ensures |Pairs(line[..k], 'x')| == LettersBefore(line, k) && LastSign(line[..k], 'x') == SignBefore(line, k)
    decreases k
  {
    if k > 0 {
      PairsTo(line, k - 1);
      assert line[..k] == line[..k - 1] + [line[k - 1]] && [line[k - 1]][1..] == "";
      PairsConcat(line[..k - 1], [line[k - 1]], 'x');
      LastSignConcat(line[..k - 1], [line[k - 1]], 'x');
    }
  }

  lemma {:induction false} LastSignConcat(a: string, b: string, polar: char)
    ensures LastSign(a + b, polar) == LastSign(b, LastSign(a, polar))
  {
    if a == "" {
      assert a + b == b;
    } else {
      assert (a + b)[1..] == a[1..] + b;
      LastSignConcat(a[1..], b, if IsSign(a[0]) then a[0] else polar);
    }
  }

  /** Each letter of a line is one change, in order, and goes with the nearest sign ahead of it. */
  lemma {:induction false} PairAt(line: string, k: nat)
    requires k < |line| && !IsSign(line[k])
    ensures var p := Pairs(line, 'x');
      LettersBefore(line, k) < |p| && p[LettersBefore(line, k)] == Change(SignBefore(line, k), line[k])
  {
    PairsTo(line, k);
    assert line == line[..k] + line[k..] && line[k..][0] == line[k];
    PairsConcat(line[..k], line[k..], 'x');
  }

  /** Every change of `p` has a sign. */
  predicate Signed(p: seq<Change>) {
    forall i :: 0 <= i < |p| ==> IsSign(p[i].polar)
  }

  lemma {:induction false} SignLed(line: string, polar: char)
    requires IsSign(polar) || (line != "" && IsSign(line[0]))
    ensures Signed(Pairs(line, polar))
  {
    if line != "" {
      SignLed(line[1..], if IsSign(line[0]) then line[0] else polar);
    }
  }

  /** The nearest change at `i` or ahead of it that is not a limit without a sign; -1 if there is none. */
  function Carrier(p: seq<Change>, i: int): (j: int)
    requires i < |p|
    ensures -1 <= j <= i || j == -1
    ensures j >= 0 ==> p[j] != Change('x', 'l')
    ensures forall k :: 0 <= k && j < k <= i ==> p[k] == Change('x', 'l')
    decreases i
  {
    if i < 0 then -1 else if p[i] != Change('x', 'l') then i else Carrier(p, i - 1)
  }

  /** Whose kind is reported at an index, and when it is that of the change itself: unless that is a limit without a
      sign, and the change whose kind it takes over has a known one. */
  lemma {:induction false} KindCarried(p: seq<Change>, i: nat)
    requires i < |p|
    ensures var j := Carrier(p, i);
      && KindAt(p, i) == (if j >= 0 then KindOf(p[j]) else Unknown)
      && (KindAt(p, i) == KindOf(p[i]) <==> j == i || j < 0 || KindOf(p[j]) == Unknown)
  {
    if p[i] == Change('x', 'l') && i > 0 {
      KindCarried(p, i - 1);
    }
  }

  lemma {:induction false} FirstPolar(line: string, polar: char)
    requires line != "" && !IsSign(line[0])
    ensures Pairs(line, polar) != [] && Pairs(line, polar)[0].polar == polar
  {
  }

  /** What it is for the two decoders to report the change at `i` of the one-pass reading, sign, letter and kind. */
  predicate AgreeAt(p: seq<Change>, i: nat) {
    i < |p| && TextAt(p, i + 1) == [p[i].polar, p[i].letter] && KindAt(p, i) == KindOf(p[i])
  }

  /** A limit without a sign that is reported as of the known kind of a change ahead of it. */
  predicate Misread(p: seq<Change>, i: nat) {
    i < |p| && p[i] == Change('x', 'l') && Carrier(p, i) >= 0 && KindOf(p[Carrier(p, i)]) != Unknown
  }

  /** The two decoders report the same changes, those of the one-pass reading, all along a line if and only if no limit
      ahead of the first sign has a change of a known kind ahead of it. A line that starts with a sign has none, and on
      no other line that shows a change are all of them signed. */
  lemma {:induction false} DecodersAgree(line: string)
    ensures var p := Pairs(line, 'x');
      && ((forall i :: 0 <= i < |p| ==> AgreeAt(p, i)) <==> forall i :: 0 <= i < |p| ==> !Misread(p, i))
      && ((forall i :: 0 <= i < |p| ==> AgreeAt(p, i) && IsSign(p[i].polar)) <==> p == [] || IsSign(line[0]))
  {
    var p := Pairs(line, 'x');
    forall i | 0 <= i < |p| ensures AgreeAt(p, i) <==> !Misread(p, i) {
      KindCarried(p, i);
    }
    if p != [] {
      if IsSign(line[0]) {
        SignLed(line, 'x');
        assert forall i :: 0 <= i < |p| ==> AgreeAt(p, i);
      } else {
        FirstPolar(line, 'x');
        assert !IsSign(p[0].polar);
      }
    }
  }

  /** An instance: the limit of `ol` is reported as another deop. */
  lemma {:induction false} UnsignedLimit()
    ensures var p := Pairs("ol", 'x');
      KindAt(p, 1) == Deop && TextAt(p, 2) == "xl"
  {
    assert "ol"[1..] == "l" && "l"[1..] == "";
    assert Pairs("ol", 'x') == [Change('x', 'o'), Change('x', 'l')];
  }
}
