/** What the multiset of a sequence counts. */
module Multisets {
  lemma TwiceIn<T>(s: seq<T>, i: nat, j: nat)
    requires i < j < |s| && s[i] == s[j]
    ensures multiset(s)[s[i]] >= 2
  {
    assert s == s[..i] + [s[i]] + s[i + 1..j] + [s[j]] + s[j + 1..];
  }

  /** The books of one step and those of the steps after it: what was there and what came in is what went out and
      what is left. */
  lemma Balance<T>(before: seq<T>, added: seq<T>, ready: seq<T>, out: seq<T>, after: seq<T>, moreAdded: seq<T>,
                   moreOut: seq<T>, end: seq<T>)
    requires multiset(ready) == multiset(before) + multiset(added)
    requires multiset(ready) == multiset(out) + multiset(after)
    requires multiset(after) + multiset(moreAdded) == multiset(moreOut) + multiset(end)
    ensures multiset(before) + multiset(added + moreAdded) == multiset(out + moreOut) + multiset(end)
  {
    var a, b, c, d := multiset(before), multiset(added), multiset(out), multiset(after);
    var e, f, g := multiset(moreAdded), multiset(moreOut), multiset(end);
    assert a + (b + e) == (a + b) + e;
    assert c + (d + e) == (c + d) + e;
    assert (c + f) + g == c + (f + g);
  }
}
