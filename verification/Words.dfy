/** `parse` of misc.c with a one-character delimiter: the next word of a line. */
module Words {
  import opened Chars

  const STRINGLEN := 128

  /** The end of the word that starts at `pos`. */
  function WordEnd(s: string, pos: nat): (e: nat)
    requires pos <= |s|
    ensures pos <= e <= |s| && NoSpace(s, pos, e)
    ensures e < |s| ==> s[e] == SPACE
    decreases |s| - pos
  {
    if pos == |s| || s[pos] == SPACE then pos else WordEnd(s, pos + 1)
  }

  /** The first position from `pos` on that holds no space. */
  function PastSpaces(s: string, pos: nat): (e: nat)
    requires pos <= |s|
    ensures pos <= e <= |s|
    ensures forall i :: pos <= i < e ==> s[i] == SPACE
    ensures e < |s| ==> s[e] != SPACE
    decreases |s| - pos
  {
    if pos == |s| || s[pos] != SPACE then pos else PastSpaces(s, pos + 1)
  }

  /** The position behind the word at `pos` and the spaces after it, or -1 for a word of `room` characters or more. */
  function Next(s: string, pos: nat, room: nat): int
    requires pos <= |s|
  {
    var e := WordEnd(s, pos);
    if e - pos >= room then -1 else PastSpaces(s, e)
  }

  function Word(s: string, pos: nat, room: nat): string
    requires pos <= |s|
  {
    var e := WordEnd(s, pos);
    if e - pos >= room then s[pos..pos + room] else s[pos..e]
  }

  method Parse(from: string, pos: nat, room: nat) returns (next: int, word: string)
    requires pos <= |from|
    ensures next == Next(from, pos, room) && word == Word(from, pos, room)
  {
    var i := pos;
    word := "";
    while i < |from| && |word| < room && from[i] != SPACE
      invariant pos <= i <= |from| && word == from[pos..i] && |word| <= room
      invariant WordEnd(from, pos) == WordEnd(from, i)
    {
      word := word + [from[i]];
      i := i + 1;
    }
    if |word| >= room {
      return -1, word;
    }
    next := i;
    while next < |from| && from[next] == SPACE
      invariant i <= next <= |from|
      invariant PastSpaces(from, i) == PastSpaces(from, next)
    {
      next := next + 1;
    }
  }

  // ---------------------------------------------------------------- words in a line

  function Spaces(n: nat): string {
    if n == 0 then "" else [SPACE] + Spaces(n - 1)
  }

  lemma {:induction false} SpacesAre(n: nat)
    ensures |Spaces(n)| == n && forall i :: 0 <= i < n ==> Spaces(n)[i] == SPACE
  {
    if n > 0 {
      SpacesAre(n - 1);
    }
  }

  /** Where a word ends is settled by what stands there. */
  lemma WordEndIs(s: string, pos: nat, e: nat)
    requires pos <= e <= |s| && NoSpace(s, pos, e) && (e < |s| ==> s[e] == SPACE)
    ensures WordEnd(s, pos) == e
  {
  }

  lemma PastSpacesIs(s: string, pos: nat, e: nat)
    requires pos <= e <= |s| && (forall i :: pos <= i < e ==> s[i] == SPACE) && (e < |s| ==> s[e] != SPACE)
    ensures PastSpaces(s, pos) == e
  {
  }

  /** A word and the spaces behind it, wherever they stand. */
  lemma WordThenGap(rest: string, pos: nat, w: string, gap: string, tail: string)
    requires pos <= |rest| && rest[pos..] == w + gap + tail && NoSpace(w, 0, |w|)
    requires forall i :: 0 <= i < |gap| ==> gap[i] == SPACE
    requires gap == "" ==> tail == ""
    requires tail != "" ==> tail[0] != SPACE
    ensures WordEnd(rest, pos) == pos + |w| <= |rest| && PastSpaces(rest, pos + |w|) == pos + |w| + |gap| <= |rest|
    ensures rest[pos..pos + |w|] == w && rest[pos + |w| + |gap|..] == tail
  {
    var s := rest[pos..];
    var e := pos + |w|;
    var next := e + |gap|;
    assert |rest| == next + |tail|;
    forall i | pos <= i < |rest| ensures rest[i] == s[i - pos] {
    }
    forall i | pos <= i < e ensures rest[i] == w[i - pos] {
    }
    forall i | e <= i < next ensures rest[i] == gap[i - e] {
    }
    forall i | next <= i < |rest| ensures rest[i] == tail[i - next] {
    }
    WordEndIs(rest, pos, e);
    PastSpacesIs(rest, e, next);
  }
}
