/** `parseprotocolmessage` of misc.c: a line from the server taken apart. */
module ProtocolMessages {
  import opened Chars
  import opened Words

  /** The sizes of the four buffers. */
  datatype Rooms = Rooms(prefix: nat, command: nat, param: nat, trailing: nat)

  datatype Fields = Fields(prefix: string, command: string, param: string, trailing: string)

  function Piece(s: string, i: nat, j: nat): string
    requires i <= j <= |s|
  {
    s[i..j]
  }

  function Tail(s: string, i: nat): string
    requires i <= |s|
  {
    s[i..]
  }

  /** The end of a token that is copied into a buffer. */
  function TokenEnd(s: string, i: nat, room: nat): (e: nat)
    requires i <= |s|
    ensures i <= e <= |s|
  {
    var e := WordEnd(s, i);
    if e - i <= room then e else i + room
  }

  function SkipColon(s: string, i: nat): (j: nat)
    requires i <= |s|
    ensures i <= j <= |s|
  {
    if i < |s| && s[i] == ':' then i + 1 else i
  }

  /** The end of the text after the colon of a trailing parameter. */
  function TextEnd(s: string, i: nat, room: nat): (e: nat)
    requires i <= |s|
    ensures i <= e <= |s|
  {
    if |s| - i <= room then |s| else i + room
  }

  /** The last piece of a line, `t..u`: the text behind a colon, or one more token; reading goes on at `w`. */
  datatype Ending = Ending(t: nat, u: nat, v: nat, w: nat)

  function EndingAt(s: string, g: nat, room: nat): (k: Ending)
    requires g <= |s|
    ensures g <= k.t <= k.u <= k.v <= k.w <= |s|
  {
    var t := SkipColon(s, g);
    if t > g then
      var u := TextEnd(s, t, room);
      Ending(t, u, u, u)
    else
      var u := TokenEnd(s, t, room);
      var v := PastSpaces(s, u);
      Ending(t, u, v, SkipColon(s, v))
  }

  /** Where the pieces of a line begin and end: prefix `a..b`, command `c..d`, parameter `e..f`; `g` ends the
      spaces before the last piece. */
  datatype Cuts = Cuts(a: nat, b: nat, c: nat, d: nat, e: nat, f: nat, g: nat, last: Ending)

  predicate Ordered(s: string, k: Cuts) {
    && k.a <= k.b <= k.c <= k.d <= k.e <= k.f <= k.g
    && k.g <= k.last.t <= k.last.u <= k.last.v <= k.last.w <= |s|
  }

  function Cutting(s: string, rooms: Rooms): (k: Cuts)
    ensures Ordered(s, k)
  {
    var a := SkipColon(s, 0);
    var b := TokenEnd(s, a, rooms.prefix);
    var c := PastSpaces(s, b);
    var d := TokenEnd(s, c, rooms.command);
    var e := SkipColon(s, PastSpaces(s, d));
    var f := TokenEnd(s, e, rooms.param);
    var g := PastSpaces(s, f);
    Cuts(a, b, c, d, e, f, g, EndingAt(s, g, rooms.trailing))
  }

  function FieldsAt(s: string, k: Cuts): Fields
    requires Ordered(s, k)
  {
    Fields(Piece(s, k.a, k.b), Piece(s, k.c, k.d), Piece(s, k.e, k.f), Piece(s, k.last.t, k.last.u))
  }

  function Parsed(s: string, rooms: Rooms): Fields {
    FieldsAt(s, Cutting(s, rooms))
  }

  /** Where the caller goes on reading. */
  function Rest(s: string, rooms: Rooms): (i: nat)
    ensures i <= |s|
  {
    Cutting(s, rooms).last.w
  }

  // ---------------------------------------------------------------- the loops

  method CopyToken(s: string, from: nat, room: nat) returns (token: string, i: nat)
    requires from <= |s|
    ensures i == TokenEnd(s, from, room) && token == Piece(s, from, i)
  {
    i, token := from, "";
    while i < |s| && |token| < room && s[i] != SPACE
      invariant from <= i <= |s| && token == s[from..i] && |token| <= room
      invariant WordEnd(s, from) == WordEnd(s, i)
    {
      token := token + [s[i]];
      i := i + 1;
    }
  }

  method SkipSpaces(s: string, from: nat) returns (i: nat)
    requires from <= |s|
    ensures i == PastSpaces(s, from)
  {
    i := from;
    while i < |s| && s[i] == SPACE
      invariant from <= i <= |s| && PastSpaces(s, from) == PastSpaces(s, i)
    {
      i := i + 1;
    }
  }

  method CopyText(s: string, from: nat, room: nat) returns (text: string, i: nat)
    requires from <= |s|
    ensures i == TextEnd(s, from, room) && text == Piece(s, from, i)
  {
    i, text := from, "";
    while i < |s| && |text| < room
      invariant from <= i <= |s| && text == s[from..i] && |text| <= room
    {
      text := text + [s[i]];
      i := i + 1;
    }
  }

  /** The last piece, from behind the spaces before it. */
  method ParseEnding(s: string, from: nat, room: nat) returns (trailing: string, i: nat)
    requires from <= |s|
    ensures var k := EndingAt(s, from, room);
      trailing == Piece(s, k.t, k.u) && i == k.w
  {
    hide PastSpaces, WordEnd, TokenEnd, TextEnd, Piece;
    i := from;
    if i < |s| && s[i] == ':' {
      i := i + 1;
      trailing, i := CopyText(s, i, room);
    } else {
      trailing, i := CopyToken(s, i, room);
      i := SkipSpaces(s, i);
      if i < |s| && s[i] == ':' {
        i := i + 1;
      }
    }
  }

  method ParseProtocolMessage(s: string, rooms: Rooms) returns (r: Fields, i: nat)
    ensures r == Parsed(s, rooms) && i == Rest(s, rooms) <= |s|
  {
    var prefix, command, param, trailing;
    hide PastSpaces, WordEnd, TokenEnd, TextEnd, Piece, EndingAt;
    i := 0;
    if i < |s| && s[i] == ':' {
      i := i + 1;
    }
    prefix, i := CopyToken(s, i, rooms.prefix);
    i := SkipSpaces(s, i);
    command, i := CopyToken(s, i, rooms.command);
    i := SkipSpaces(s, i);
    if i < |s| && s[i] == ':' {
      i := i + 1;
    }
    param, i := CopyToken(s, i, rooms.param);
    i := SkipSpaces(s, i);
    trailing, i := ParseEnding(s, i, rooms.trailing);
    r := Fields(prefix, command, param, trailing);
  }

  // ---------------------------------------------------------------- printing

  /** How a line is laid out around its fields: the colons and the numbers of spaces. */
  datatype Layout = Layout(c0: bool, g1: nat, g2: nat, c2: bool, g3: nat, c3: bool, g4: nat, c4: bool)

  function Colon(there: bool): string {
    if there then ":" else ""
  }

  /** The piece from the last field on. */
  function Printed4(m: Fields, l: Layout, rest: string): string {
    Colon(l.c3) + (m.trailing + Spaces(l.g4) + (Colon(l.c4) + rest))
  }

  function Printed3(m: Fields, l: Layout, rest: string): string {
    Colon(l.c2) + (m.param + Spaces(l.g3) + Printed4(m, l, rest))
  }

  function Printed2(m: Fields, l: Layout, rest: string): string {
    m.command + Spaces(l.g2) + Printed3(m, l, rest)
  }

  function Printed(m: Fields, l: Layout, rest: string): string {
    Colon(l.c0) + (m.prefix + Spaces(l.g1) + Printed2(m, l, rest))
  }

  /** How a line is laid out, as the parser sees it. */
  function LayoutOf(s: string, rooms: Rooms): Layout {
    var k := Cutting(s, rooms);
    var e := PastSpaces(s, k.d);
    Layout(k.a > 0, k.c - k.b, e - k.d, k.e > e, k.g - k.f, k.last.t > k.g, k.last.v - k.last.u,
      k.last.w > k.last.v)
  }

  lemma SpacesBetween(s: string, i: nat, j: nat)
    requires i <= j <= |s| && j <= PastSpaces(s, i)
    ensures s[i..j] == Spaces(j - i)
  {
    SpacesAre(j - i);
    var t := s[i..j];
    forall n | 0 <= n < |t| ensures t[n] == Spaces(j - i)[n] {
      assert s[i + n] == SPACE;
    }
  }

  lemma SkippedColon(s: string, i: nat)
    requires i <= |s|
    ensures Tail(s, i) == Colon(SkipColon(s, i) > i) + Tail(s, SkipColon(s, i))
  {
  }

  /** A piece of a line up to `j` and the spaces behind it. */
  lemma PieceAndGap(s: string, i: nat, j: nat)
    requires i <= j <= |s|
    ensures Tail(s, i) == Piece(s, i, j) + Spaces(PastSpaces(s, j) - j) + Tail(s, PastSpaces(s, j))
  {
    var k := PastSpaces(s, j);
    SpacesBetween(s, j, k);
    assert s[i..] == s[i..j] + s[j..k] + s[k..];
  }

  lemma PieceAlone(s: string, i: nat, j: nat)
    requires i <= j <= |s|
    ensures Tail(s, i) == Piece(s, i, j) + Spaces(0) + (Colon(false) + Tail(s, j))
  {
    assert s[i..] == s[i..j] + s[j..];
  }

  lemma PrintsLast(s: string, rooms: Rooms)
    ensures var k := Cutting(s, rooms);
      Tail(s, k.g) == Printed4(Parsed(s, rooms), LayoutOf(s, rooms), Tail(s, k.last.w))
  {
    hide PastSpaces, WordEnd, TokenEnd, TextEnd, Spaces, Colon, Tail, Piece;
    var k := Cutting(s, rooms);
    SkippedColon(s, k.g);
    if k.last.t > k.g {
      PieceAlone(s, k.last.t, k.last.u);
    } else {
      PieceAndGap(s, k.last.t, k.last.u);
      SkippedColon(s, k.last.v);
    }
  }

  lemma PrintsParam(s: string, rooms: Rooms)
    ensures var k := Cutting(s, rooms);
      Tail(s, PastSpaces(s, k.d)) == Printed3(Parsed(s, rooms), LayoutOf(s, rooms), Tail(s, k.last.w))
  {
    hide PastSpaces, WordEnd, TokenEnd, TextEnd, SkipColon, Spaces, Colon, Tail, Piece, Printed4, EndingAt;
    var k := Cutting(s, rooms);
    PrintsLast(s, rooms);
    SkippedColon(s, PastSpaces(s, k.d));
    PieceAndGap(s, k.e, k.f);
  }

  lemma PrintsCommand(s: string, rooms: Rooms)
    ensures var k := Cutting(s, rooms);
      Tail(s, k.c) == Printed2(Parsed(s, rooms), LayoutOf(s, rooms), Tail(s, k.last.w))
  {
    hide PastSpaces, WordEnd, TokenEnd, TextEnd, SkipColon, Spaces, Colon, Tail, Piece, Printed3, EndingAt;
    var k := Cutting(s, rooms);
    PrintsParam(s, rooms);
    PieceAndGap(s, k.c, k.d);
  }

  lemma PrintsAll(s: string, rooms: Rooms)
    ensures Tail(s, 0) == Printed(Parsed(s, rooms), LayoutOf(s, rooms), Tail(s, Cutting(s, rooms).last.w))
  {
    hide PastSpaces, WordEnd, TokenEnd, TextEnd, SkipColon, Spaces, Colon, Tail, Piece, Printed2, EndingAt;
    var k := Cutting(s, rooms);
    PrintsCommand(s, rooms);
    SkippedColon(s, 0);
    PieceAndGap(s, k.a, k.b);
  }

  /** Whatever the line and the buffers: printing the fields again, with the colons and spaces that were skipped
      and what is left to read behind them, gives back the line. Nothing is lost and nothing is read twice. */
  lemma {:induction false} PrintsBack(s: string, rooms: Rooms)
    ensures Printed(Parsed(s, rooms), LayoutOf(s, rooms), s[Rest(s, rooms)..]) == s
  {
    PrintsAll(s, rooms);
    hide Cutting, Parsed, LayoutOf, Printed;
    assert s[0..] == s;
  }

  // ---------------------------------------------------------------- parsing what was printed

  predicate Token(w: string) {
    w != "" && NoSpace(w, 0, |w|)
  }

  /** A token that is not taken for a colon. */
  predicate Plain(w: string, colon: bool) {
    Token(w) && (colon || w[0] != ':')
  }

  /** Nothing follows the first parameter but perhaps spaces. */
  predicate Bare(m: Fields, l: Layout) {
    !l.c3 && m.trailing == ""
  }

  /** A line as section 2.3.1 of RFC 1459 has it: a prefix, a command, a parameter and, behind any number of
      spaces, nothing, the trailing text of a colon, or one more parameter and what follows it. */
  predicate WellFormed(m: Fields, l: Layout, rest: string) {
    && Plain(m.prefix, l.c0) && Token(m.command) && Plain(m.param, l.c2)
    && l.g1 > 0 && l.g2 > 0 && (l.g3 > 0 || Bare(m, l))
    && (if l.c3 || Bare(m, l) then l.g4 == 0 && !l.c4 && rest == ""
        else Plain(m.trailing, false) && (l.g4 == 0 ==> !l.c4 && rest == "")
             && (rest != "" && !l.c4 ==> rest[0] != SPACE && rest[0] != ':'))
  }

  predicate Fits(m: Fields, rooms: Rooms) {
    |m.prefix| <= rooms.prefix && |m.command| <= rooms.command && |m.param| <= rooms.param
    && |m.trailing| <= rooms.trailing
  }

  /** A token and the spaces behind it: it comes out whole exactly when it fits. */
  lemma TokenThenGap(s: string, i: nat, w: string, gap: nat, tail: string, room: nat)
    requires i <= |s| && Tail(s, i) == w + Spaces(gap) + tail && Token(w)
    requires (gap == 0 ==> tail == "") && (tail != "" ==> tail[0] != SPACE)
    ensures var e := TokenEnd(s, i, room);
      && (Piece(s, i, e) == w <==> |w| <= room)
      && (|w| <= room ==> Tail(s, PastSpaces(s, e)) == tail)
  {
    SpacesAre(gap);
    WordThenGap(s, i, w, Spaces(gap), tail);
    if |w| > room {
      assert |s[i..i + room]| == room;
    }
  }

  lemma ColonSkipped(s: string, i: nat, colon: bool, tail: string)
    requires i <= |s| && Tail(s, i) == Colon(colon) + tail && (!colon && tail != "" ==> tail[0] != ':')
    ensures var j := SkipColon(s, i);
      Tail(s, j) == tail && (j > i <==> colon)
  {
    var whole := s[i..];
    assert i < |s| ==> s[i] == whole[0];
    if colon {
      assert whole[0] == ':' && whole[1..] == tail;
      assert s[i + 1..] == whole[1..];
    } else {
      assert whole == tail;
    }
  }

  lemma TextTaken(s: string, i: nat, text: string, room: nat)
    requires i <= |s| && Tail(s, i) == text
    ensures var e := TextEnd(s, i, room);
      (Piece(s, i, e) == text <==> |text| <= room) && (|text| <= room ==> Tail(s, e) == "")
  {
  }

  /** How the layers of a printed line begin. */
  lemma Beginnings(m: Fields, l: Layout, rest: string)
    requires WellFormed(m, l, rest)
    ensures var p4, p3, p2 := Printed4(m, l, rest), Printed3(m, l, rest), Printed2(m, l, rest);
      && (p4 == "" <==> Bare(m, l)) && (p4 != "" ==> p4[0] != SPACE)
      && p3 != "" && p3[0] != SPACE && p2 != "" && p2[0] != SPACE
  {
    assert m.prefix[0] != SPACE && m.command[0] != SPACE && m.param[0] != SPACE;
    assert !l.c3 && !Bare(m, l) ==> m.trailing[0] != SPACE;
    assert Printed2(m, l, rest)[0] == m.command[0];
    assert Printed3(m, l, rest)[0] == if l.c2 then ':' else m.param[0];
    assert Bare(m, l) || Printed4(m, l, rest)[0] == if l.c3 then ':' else m.trailing[0];
  }

  lemma ParsesEnding(s: string, g: nat, m: Fields, l: Layout, rest: string, room: nat)
    requires WellFormed(m, l, rest) && g <= |s| && Tail(s, g) == Printed4(m, l, rest)
    ensures var k := EndingAt(s, g, room);
      && (Piece(s, k.t, k.u) == m.trailing <==> |m.trailing| <= room)
      && (|m.trailing| <= room ==> Tail(s, k.w) == rest)
  {
    var after := Colon(l.c4) + rest;
    var tail := m.trailing + Spaces(l.g4) + after;
    if l.c3 {
      assert tail == m.trailing;
      ColonSkipped(s, g, true, tail);
      TextTaken(s, SkipColon(s, g), m.trailing, room);
    } else if Bare(m, l) {
      assert tail == "" && g == |s|;
    } else {
      assert tail[0] == m.trailing[0];
      ColonSkipped(s, g, false, tail);
      assert after != "" ==> after[0] == if l.c4 then ':' else rest[0];
      TokenThenGap(s, g, m.trailing, l.g4, after, room);
      if |m.trailing| <= room {
        ColonSkipped(s, EndingAt(s, g, room).v, l.c4, rest);
      }
    }
  }

  lemma ParsesParam(s: string, i: nat, m: Fields, l: Layout, rest: string, rooms: Rooms)
    requires WellFormed(m, l, rest) && i <= |s| && Tail(s, i) == Printed3(m, l, rest)
    ensures var e := SkipColon(s, i);
      var f := TokenEnd(s, e, rooms.param);
      var last := EndingAt(s, PastSpaces(s, f), rooms.trailing);
      && (Piece(s, e, f) == m.param && Piece(s, last.t, last.u) == m.trailing
          <==> |m.param| <= rooms.param && |m.trailing| <= rooms.trailing)
      && (|m.param| <= rooms.param && |m.trailing| <= rooms.trailing ==> Tail(s, last.w) == rest)
  {
    var p4 := Printed4(m, l, rest);
    Beginnings(m, l, rest);
    var tail := m.param + Spaces(l.g3) + p4;
    assert tail[0] == m.param[0];
    hide PastSpaces, WordEnd, TokenEnd, TextEnd, SkipColon, Spaces, Colon, Tail, Piece, EndingAt, Printed4;
    ColonSkipped(s, i, l.c2, tail);
    TokenThenGap(s, SkipColon(s, i), m.param, l.g3, p4, rooms.param);
    if |m.param| <= rooms.param {
      ParsesEnding(s, PastSpaces(s, TokenEnd(s, SkipColon(s, i), rooms.param)), m, l, rest, rooms.trailing);
    }
  }

  /** A well-formed line is parsed into the fields it was printed from exactly when they fit the buffers, whatever
      the numbers of spaces and with or without the optional colons; reading goes on behind the last field. */
  lemma {:induction false} ParsesPrinted(m: Fields, l: Layout, rest: string, rooms: Rooms)
    requires WellFormed(m, l, rest)
    ensures var s := Printed(m, l, rest);
      && (Parsed(s, rooms) == m <==> Fits(m, rooms))
      && (Fits(m, rooms) ==> s[Rest(s, rooms)..] == rest)
  {
    var s := Printed(m, l, rest);
    var k := Cutting(s, rooms);
    var p3, p2 := Printed3(m, l, rest), Printed2(m, l, rest);
    Beginnings(m, l, rest);
    assert Tail(s, 0) == s && Tail(s, Rest(s, rooms)) == s[Rest(s, rooms)..];
    var tail := m.prefix + Spaces(l.g1) + p2;
    assert tail[0] == m.prefix[0];
    hide PastSpaces, WordEnd, TokenEnd, TextEnd, SkipColon, Spaces, Colon, Tail, Piece, EndingAt, Printed3, Printed4;
    ColonSkipped(s, 0, l.c0, tail);
    TokenThenGap(s, k.a, m.prefix, l.g1, p2, rooms.prefix);
    if |m.prefix| <= rooms.prefix {
      TokenThenGap(s, k.c, m.command, l.g2, p3, rooms.command);
      if |m.command| <= rooms.command {
        ParsesParam(s, PastSpaces(s, k.d), m, l, rest, rooms);
      }
    }
  }
}
