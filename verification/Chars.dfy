/** Characters and C strings, ASCII only: what `tolower`, `strcasecmp` and
    `index` of the C library mean for the rest of the project. A C string is a
    `string` without its terminating NUL. */
module Chars {

  const SPACE: char := ' '
  const CHANLEN := 50  // the buffers for modes and for keys

  predicate IsUpper(c: char) {
    'A' <= c <= 'Z'
  }

  predicate IsLower(c: char) {
    'a' <= c <= 'z'
  }

  function ToLower(c: char): char {
    if IsUpper(c) then c - 'A' + 'a' else c
  }

  /** `strcasecmp(a, b) == 0` */
  predicate SameText(a: string, b: string) {
    |a| == |b| && forall i :: 0 <= i < |a| ==> ToLower(a[i]) == ToLower(b[i])
  }

  /** No space in `s[from..to]`. */
  predicate NoSpace(s: string, from: nat, to: nat)
    requires from <= to <= |s|
  {
    forall i :: from <= i < to ==> s[i] != SPACE
  }

  /** At most `room` characters of `s`. */
  function Clip(s: string, room: nat): (r: string)
    ensures |r| <= room
  {
    if |s| <= room then s else s[..room]
  }

  /** `snprintf(buf, size, "%s", s)` */
  function Truncated(s: string, size: nat): string
    requires size > 0
  {
    Clip(s, size - 1)
  }

  /** `strncat` into a buffer of `room` characters. */
  function Appended(buffer: string, more: string, room: nat): (r: string)
    requires |buffer| <= room
    ensures |r| <= room
  {
    buffer + Clip(more, room - |buffer|)
  }

  lemma AppendedClips(a: string, b: string, room: nat)
    ensures Appended(Clip(a, room), b, room) == Clip(a + b, room)
  {
  }
}
