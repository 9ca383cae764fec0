/** The numbered topics of a channel: the table `oer_topics` and the sequences of
    updates that ds.c runs on it to insert, delete and swap. */
module Topics {
  import opened Chars
  import opened Multisets
  import opened Options
  import opened SortedQueue
  import opened TopicClauses

  const TOPICS_MAX := 20
  const POS_MAX := 255  // pos is an unsigned tinyint
  const MESSAGE_MAX := 255  // message is a varchar(255)

  datatype Row = Row(pos: int, message: string)

  /** What the column keeps of a number. */
  function Stored(pos: int): int {
    if pos > POS_MAX then POS_MAX else pos
  }

  // ---------------------------------------------------------------- statements

  /** UPDATE ... SET pos = f(pos) */
  function Updated(rows: seq<Row>, f: int -> int): (r: seq<Row>)
    ensures |r| == |rows| && forall i :: 0 <= i < |rows| ==> r[i] == Row(Stored(f(rows[i].pos)), rows[i].message)
  {
    seq(|rows|, i requires 0 <= i < |rows| => Row(Stored(f(rows[i].pos)), rows[i].message))
  }

  /** DELETE ... WHERE pos is one of `which` */
  function Deleted(rows: seq<Row>, which: set<int>): seq<Row> {
    if rows == [] then [] else (if rows[0].pos in which then [] else [rows[0]]) + Deleted(rows[1..], which)
  }

  function RowCmp(a: Row, b: Row): int {
    if a.pos < b.pos then 1 else if a.pos > b.pos then -1 else 0
  }

  /** SELECT ... ORDER BY pos */
  function Ordered(rows: seq<Row>): (r: seq<Row>)
    ensures |r| == |rows|
  {
    if rows == [] then [] else Inserted(RowCmp, rows[|rows| - 1], Ordered(rows[..|rows| - 1]))
  }

  // ---------------------------------------------------------------- the list behind the table

  /** The rows are numbered 1 to n, each number once, and read `topics` in that order. */
  ghost predicate Lists(rows: seq<Row>, topics: seq<string>) {
    && |rows| == |topics|
    && (forall i :: 0 <= i < |rows| ==> 1 <= rows[i].pos <= |topics| && topics[rows[i].pos - 1] == rows[i].message)
    && (forall i, j :: 0 <= i < j < |rows| ==> rows[i].pos != rows[j].pos)
  }

  function InsertedAt(topics: seq<string>, pos: int, topic: string): seq<string>
    requires 1 <= pos <= |topics| + 1
  {
    topics[..pos - 1] + [topic] + topics[pos - 1..]
  }

  function Edited(topics: seq<string>, pos: int, topic: string): seq<string>
    requires 1 <= pos <= |topics|
  {
    topics[pos - 1 := topic]
  }

  function Swapped(topics: seq<string>, x: int, y: int): seq<string>
    requires 1 <= x <= |topics| && 1 <= y <= |topics|
  {
    topics[x - 1 := topics[y - 1]][y - 1 := topics[x - 1]]
  }

  /** `topics` without the entries whose number is in `which`, the first entry counting as `first`. */
  function Without(topics: seq<string>, which: set<int>, first: int): seq<string> {
    if topics == [] then [] else (if first in which then [] else [topics[0]]) + Without(topics[1..], which, first + 1)
  }

  // ---------------------------------------------------------------- insert

  function RoomAt(pos: int): int -> int {
    p => if p >= pos then p + 1 else p
  }

  function AfterInsert(rows: seq<Row>, pos: int, topic: string): seq<Row> {
    Updated(rows, RoomAt(pos)) + [Row(Stored(pos), Clip(topic, MESSAGE_MAX))]
  }

  /** The column holds no number past its end. */
  lemma StoredNumber(rows: seq<Row>, pos: int, topic: string, i: nat)
    requires i < |AfterInsert(rows, pos, topic)|
    ensures AfterInsert(rows, pos, topic)[i].pos <= POS_MAX
  {
  }

  /** Insertion is list insertion if and only if the columns can number one more row and hold its text. */
  lemma {:induction false} InsertLists(rows: seq<Row>, topics: seq<string>, pos: int, topic: string)
    requires Lists(rows, topics) && 1 <= pos <= |topics| + 1
    ensures Lists(AfterInsert(rows, pos, topic), InsertedAt(topics, pos, topic))
       <==> |topics| < POS_MAX && |topic| <= MESSAGE_MAX
  {
    var r, t := AfterInsert(rows, pos, topic), InsertedAt(topics, pos, topic);
    if |topics| < POS_MAX && |topic| > MESSAGE_MAX {
      assert r[|rows|].pos == pos && r[|rows|].message != t[pos - 1];
    } else if |topics| < POS_MAX {
      forall i | 0 <= i < |r| ensures 1 <= r[i].pos <= |t| && t[r[i].pos - 1] == r[i].message {
        if i < |rows| {
          assert r[i].pos == RoomAt(pos)(rows[i].pos);
        }
      }
      forall i, j | 0 <= i < j < |r| ensures r[i].pos != r[j].pos {
        if j < |rows| {
          assert rows[i].pos != rows[j].pos;
        }
      }
    } else if Lists(r, t) {
      var i := RowAt(r, t, |t|);
      StoredNumber(rows, pos, topic, i);
    }
  }

  /** The rows of topics that were added one after the other to an empty table. */
  function Loaded(topics: seq<string>): (r: seq<Row>)
    ensures |r| == |topics|
  {
    if topics == [] then []
    else AfterInsert(Loaded(topics[..|topics| - 1]), |topics|, topics[|topics| - 1])
  }

  lemma {:induction false} LoadedLists(topics: seq<string>)
    requires |topics| <= POS_MAX && forall i :: 0 <= i < |topics| ==> |topics[i]| <= MESSAGE_MAX
    ensures Lists(Loaded(topics), topics)
  {
    if topics != [] {
      var n := |topics| - 1;
      LoadedLists(topics[..n]);
      InsertLists(Loaded(topics[..n]), topics[..n], |topics|, topics[n]);
      assert InsertedAt(topics[..n], |topics|, topics[n]) == topics;
    }
  }

  // ---------------------------------------------------------------- edit

  /** UPDATE ... SET message = topic WHERE pos is `pos` */
  function AfterEdit(rows: seq<Row>, pos: int, topic: string): (r: seq<Row>)
    ensures |r| == |rows|
    ensures forall i :: 0 <= i < |rows| ==>
      r[i] == if rows[i].pos == pos then Row(pos, Clip(topic, MESSAGE_MAX)) else rows[i]
  {
    seq(|rows|, i requires 0 <= i < |rows| =>
      if rows[i].pos == pos then Row(pos, Clip(topic, MESSAGE_MAX)) else rows[i])
  }

  lemma {:induction false} EditLists(rows: seq<Row>, topics: seq<string>, pos: int, topic: string)
    requires Lists(rows, topics) && 1 <= pos <= |topics|
    ensures Lists(AfterEdit(rows, pos, topic), Edited(topics, pos, topic)) <==> |topic| <= MESSAGE_MAX
  {
    var i := RowAt(rows, topics, pos);
    assert AfterEdit(rows, pos, topic)[i] == Row(pos, Clip(topic, MESSAGE_MAX));
  }

  // ---------------------------------------------------------------- swap

  function Moved(from: int, to: int): int -> int {
    p => if p == from then to else p
  }

  const PARKING := TOPICS_MAX + 1

  function AfterSwap(rows: seq<Row>, x: int, y: int): seq<Row> {
    Updated(Updated(Updated(rows, Moved(x, PARKING)), Moved(y, x)), Moved(PARKING, y))
  }

  /** Where a number ends up when it is neither past the parking slot nor in it. */
  function Exchanged(pos: int, x: int, y: int): int {
    if pos == x then y else if pos == y then x else pos
  }

  lemma AfterSwapAt(rows: seq<Row>, x: int, y: int, i: nat)
    requires i < |rows| && 1 <= x <= TOPICS_MAX && 1 <= y <= TOPICS_MAX && rows[i].pos <= POS_MAX
    ensures |AfterSwap(rows, x, y)| == |rows|
    ensures AfterSwap(rows, x, y)[i].message == rows[i].message
    ensures AfterSwap(rows, x, y)[i].pos == if rows[i].pos == PARKING then y else Exchanged(rows[i].pos, x, y)
  {
    var a := Updated(rows, Moved(x, PARKING));
    var b := Updated(a, Moved(y, x));
    assert a[i] == Row(Stored(Moved(x, PARKING)(rows[i].pos)), rows[i].message);
    assert b[i] == Row(Stored(Moved(y, x)(a[i].pos)), rows[i].message);
  }

  lemma ExchangedLists(rows: seq<Row>, topics: seq<string>, r: seq<Row>, x: int, y: int)
    requires Lists(rows, topics) && 1 <= x <= |topics| && 1 <= y <= |topics| && |r| == |rows|
    requires forall i :: 0 <= i < |rows| ==> r[i] == Row(Exchanged(rows[i].pos, x, y), rows[i].message)
    ensures Lists(r, Swapped(topics, x, y))
  {
    forall i, j | 0 <= i < j < |r| ensures r[i].pos != r[j].pos {
      assert rows[i].pos != rows[j].pos;
    }
  }

  /** Swapping through the parking slot exchanges exactly two entries if and only if the slot is free. */
  lemma {:induction false} SwapLists(rows: seq<Row>, topics: seq<string>, x: int, y: int)
    requires Lists(rows, topics) && |topics| <= POS_MAX
    requires 1 <= x <= TOPICS_MAX && x <= |topics| && 1 <= y <= TOPICS_MAX && y <= |topics|
    ensures Lists(AfterSwap(rows, x, y), Swapped(topics, x, y)) <==> |topics| <= TOPICS_MAX
  {
    hide AfterSwap, Swapped;
    var r := AfterSwap(rows, x, y);
    AfterSwapAt(rows, x, y, 0);
    if |topics| <= TOPICS_MAX {
      forall i | 0 <= i < |rows| ensures r[i] == Row(Exchanged(rows[i].pos, x, y), rows[i].message) {
        AfterSwapAt(rows, x, y, i);
      }
      ExchangedLists(rows, topics, r, x, y);
    } else {
      var i := RowAt(rows, topics, PARKING);
      var j := RowAt(rows, topics, x);
      AfterSwapAt(rows, x, y, i);
      AfterSwapAt(rows, x, y, j);
    }
  }

  /** Every number from 1 to n has its row. */
  lemma RowAt(rows: seq<Row>, topics: seq<string>, k: int) returns (i: nat)
    requires Lists(rows, topics) && 1 <= k <= |topics|
    ensures i < |rows| && rows[i].pos == k
  {
    if forall i :: 0 <= i < |rows| ==> rows[i].pos != k {
      var others := seq(|rows|, i requires 0 <= i < |rows| => rows[i].pos - if rows[i].pos > k then 1 else 0);
      AtMost(others, |rows| - 1);
      assert false;
    }
    i :| 0 <= i < |rows| && rows[i].pos == k;
  }

  /** There are at most `n` different numbers from 1 to `n`. */
  lemma {:induction false} AtMost(s: seq<int>, n: int)
    requires forall i :: 0 <= i < |s| ==> 1 <= s[i] <= n
    requires forall i, j :: 0 <= i < j < |s| ==> s[i] != s[j]
    ensures |s| <= n || s == []
    decreases |s|, n
  {
    if s != [] {
      assert 1 <= s[0] <= n;
      if k :| 0 <= k < |s| && s[k] == n {
        AtMost(s[..k] + s[k + 1..], n - 1);
      } else {
        AtMost(s, n - 1);
      }
    }
  }

  // ---------------------------------------------------------------- delete

  const SHIFT := TOPICS_MAX + 1

  function ShiftUp(): int -> int {
    p => p + SHIFT
  }

  function Positions(rows: seq<Row>): (r: seq<int>)
    ensures |r| == |rows| && forall i :: 0 <= i < |rows| ==> r[i] == rows[i].pos
  {
    seq(|rows|, i requires 0 <= i < |rows| => rows[i].pos)
  }

  /** One UPDATE per row of the snapshot `snap`: its number becomes the next of `which`, `which + 1`, ... */
  function Renumbered(rows: seq<Row>, snap: seq<int>, which: int): seq<Row>
    decreases snap
  {
    if snap == [] then rows else Renumbered(Updated(rows, Moved(snap[0], which)), snap[1..], which + 1)
  }

  function AfterDelete(rows: seq<Row>, which: set<int>): seq<Row> {
    var shifted := Updated(Deleted(rows, which), ShiftUp());
    Renumbered(shifted, Positions(Ordered(shifted)), 1)
  }

  lemma RowCmpIsOrder()
    ensures IsOrder(RowCmp)
  {
  }

  lemma {:induction false} OrderedSorts(rows: seq<Row>)
    ensures Sorted(RowCmp, Ordered(rows)) && multiset(Ordered(rows)) == multiset(rows)
  {
    if rows != [] {
      var n := |rows| - 1;
      OrderedSorts(rows[..n]);
      RowCmpIsOrder();
      assert rows == rows[..n] + [rows[n]];
      assert multiset(rows) == multiset(rows[..n]) + multiset{rows[n]};
      assert Ordered(rows) == Inserted(RowCmp, rows[n], Ordered(rows[..n]));
      hide Ordered, Inserted, InsertAt, Sorted;
      InsertedSorted(RowCmp, rows[n], Ordered(rows[..n]));
    }
  }

  predicate Increasing(s: seq<int>) {
    forall i, j :: 0 <= i < j < |s| ==> s[i] < s[j]
  }

  /** Sorting rows lists exactly their numbers. */
  lemma PositionsSame(rows: seq<Row>)
    ensures var s := Positions(Ordered(rows));
      && (forall i :: 0 <= i < |rows| ==> rows[i].pos in s)
      && (forall p :: p in s ==> exists i :: 0 <= i < |rows| && rows[i].pos == p)
  {
    hide Ordered, Sorted;
    OrderedSorts(rows);
    var o, s := Ordered(rows), Positions(Ordered(rows));
    forall i | 0 <= i < |rows| ensures rows[i].pos in s {
      assert rows[i] in multiset(o);
      var k :| 0 <= k < |o| && o[k] == rows[i];
      assert s[k] == rows[i].pos;
    }
    forall p | p in s ensures exists i :: 0 <= i < |rows| && rows[i].pos == p {
      var k :| 0 <= k < |s| && s[k] == p;
      assert o[k] in multiset(rows);
      var i :| 0 <= i < |rows| && rows[i] == o[k];
    }
  }

  lemma {:induction false} OnceIn(rows: seq<Row>, r: Row)
    requires forall i, j :: 0 <= i < j < |rows| ==> rows[i].pos != rows[j].pos
    ensures multiset(rows)[r] <= 1
  {
    if rows != [] {
      OnceIn(rows[1..], r);
      assert rows == [rows[0]] + rows[1..];
      forall k | 0 <= k < |rows[1..]| ensures rows[1..][k] != rows[0] {
        assert rows[1..][k] == rows[k + 1];
      }
    }
  }

  /** Reordering rows brings no two together that share a number. */
  lemma NoTie(rows: seq<Row>, o: seq<Row>, i: nat, j: nat)
    requires forall i, j :: 0 <= i < j < |rows| ==> rows[i].pos != rows[j].pos
    requires multiset(o) == multiset(rows) && i < j < |o|
    ensures o[i].pos != o[j].pos
  {
    OnceIn(rows, o[i]);
    if o[i] == o[j] {
      TwiceIn(o, i, j);
    } else {
      assert o[i] in multiset(rows) && o[j] in multiset(rows);
      var a :| 0 <= a < |rows| && rows[a] == o[i];
      var b :| 0 <= b < |rows| && rows[b] == o[j];
    }
  }

  /** Distinct numbers come out in increasing order. */
  lemma PositionsIncrease(rows: seq<Row>)
    requires forall i, j :: 0 <= i < j < |rows| ==> rows[i].pos != rows[j].pos
    ensures Increasing(Positions(Ordered(rows)))
  {
    OrderedSorts(rows);
    var o, s := Ordered(rows), Positions(Ordered(rows));
    hide Ordered;
    forall i, j | 0 <= i < j < |s| ensures s[i] < s[j] {
      assert RowCmp(o[i], o[j]) != -1;
      NoTie(rows, o, i, j);
    }
  }

  lemma NotEmpty(a: seq<int>, b: seq<int>)
    requires b != [] && forall p :: p in b ==> p in a
    ensures a != [] && b[0] in a
  {
    var x := b[0];
    assert x in b;
  }

  lemma {:induction false} UniqueIncreasing(a: seq<int>, b: seq<int>)
    requires Increasing(a) && Increasing(b)
    requires forall p :: p in a <==> p in b
    ensures a == b
  {
    if b != [] {
      NotEmpty(a, b);
    }
    if a != [] {
      NotEmpty(b, a);
      assert a[0] in b && b[0] in a;
      forall p | true ensures p in a[1..] <==> p in b[1..] {
        assert p in a[1..] <==> p in a && p != a[0];
        assert p in b[1..] <==> p in b && p != b[0];
      }
      UniqueIncreasing(a[1..], b[1..]);
    }
  }

  /** A renumbering pass gives the row with the k-th number of the snapshot the k-th new number; because the new
      numbers stay below the ones still to be replaced, no UPDATE hits a row it already renumbered. */
  lemma {:induction false} RenumberedRanks(rows: seq<Row>, snap: seq<int>, which: int)
    requires Increasing(snap) && forall k :: 0 <= k < |snap| ==> snap[k] >= which + k
    requires which + |snap| <= POS_MAX + 1 && forall i :: 0 <= i < |rows| ==> rows[i].pos <= POS_MAX
    ensures var r := Renumbered(rows, snap, which);
      && |r| == |rows|
      && (forall i :: 0 <= i < |rows| ==> r[i].message == rows[i].message)
      && (forall i, k :: 0 <= i < |rows| && 0 <= k < |snap| && rows[i].pos == snap[k] ==> r[i].pos == which + k)
      && (forall i :: 0 <= i < |rows| && rows[i].pos !in snap ==> r[i].pos == rows[i].pos)
    decreases snap
  {
    if snap != [] {
      var next := Updated(rows, Moved(snap[0], which));
      RenumberedRanks(next, snap[1..], which + 1);
      var r := Renumbered(rows, snap, which);
      forall i, k | 0 <= i < |rows| && 0 <= k < |snap| && rows[i].pos == snap[k] ensures r[i].pos == which + k {
        if k == 0 {
          assert next[i].pos == which && which !in snap[1..];
        } else {
          assert next[i].pos == snap[k] && snap[k] == snap[1..][k - 1];
        }
      }
      forall i | 0 <= i < |rows| && rows[i].pos !in snap ensures r[i].pos == rows[i].pos {
        assert next[i].pos == rows[i].pos && rows[i].pos !in snap[1..];
      }
    }
  }

  /** Rows that share a number share it for ever. */
  lemma {:induction false} TiesStay(rows: seq<Row>, snap: seq<int>, which: int, i: nat, j: nat)
    requires i < |rows| && j < |rows| && rows[i].pos == rows[j].pos
    ensures var r := Renumbered(rows, snap, which); |r| == |rows| && r[i].pos == r[j].pos
    decreases snap
  {
    if snap != [] {
      TiesStay(Updated(rows, Moved(snap[0], which)), snap[1..], which + 1, i, j);
    }
  }

  /** Deleting rows keeps the others, each once. */
  lemma {:induction false} DeletedKeeps(rows: seq<Row>, which: set<int>)
    requires forall i, j :: 0 <= i < j < |rows| ==> rows[i].pos != rows[j].pos
    ensures var d := Deleted(rows, which);
      && (forall r :: r in d <==> r in rows && r.pos !in which)
      && (forall i, j :: 0 <= i < j < |d| ==> d[i].pos != d[j].pos)
  {
    if rows != [] {
      var rest := rows[1..];
      DeletedKeeps(rest, which);
      forall r | r in rest ensures r.pos != rows[0].pos {
        var i :| 0 <= i < |rest| && rest[i] == r;
        assert rows[i + 1] == r;
      }
      forall r | true ensures r in rows <==> r == rows[0] || r in rest {
        assert rows == [rows[0]] + rest;
      }
    }
  }

  /** The numbers from `first` on that survive. */
  function KeptNumbers(n: nat, which: set<int>, first: int): seq<int> {
    if n == 0 then [] else (if first in which then [] else [first]) + KeptNumbers(n - 1, which, first + 1)
  }

  lemma {:induction false} KeptIncrease(n: nat, which: set<int>, first: int)
    ensures var r := KeptNumbers(n, which, first);
      Increasing(r) && forall p :: p in r <==> first <= p < first + n && p !in which
  {
    if n > 0 {
      KeptIncrease(n - 1, which, first + 1);
      var rest := KeptNumbers(n - 1, which, first + 1);
      if first !in which {
        assert forall i :: 0 <= i < |rest| ==> rest[i] in rest;
      }
    }
  }

  /** What `Without` reads at each of them. */
  lemma {:induction false} WithoutAt(topics: seq<string>, which: set<int>, first: int)
    ensures var k, w := KeptNumbers(|topics|, which, first), Without(topics, which, first);
      |k| == |w| && forall i :: 0 <= i < |k| ==> first <= k[i] < first + |topics| && w[i] == topics[k[i] - first]
  {
    if topics != [] {
      WithoutAt(topics[1..], which, first + 1);
    }
  }

  lemma {:induction false} IncreasingAtLeast(s: seq<int>, low: int, k: nat)
    requires Increasing(s) && k < |s| && s[0] >= low
    ensures s[k] >= low + k
  {
    if k > 0 {
      IncreasingAtLeast(s, low, k - 1);
    }
  }

  /** The shift drives no two surviving rows against the end of the column. */
  predicate ShiftFits(which: set<int>, n: nat) {
    forall p, q :: POS_MAX - SHIFT <= p < q <= n ==> p in which || q in which
  }

  /** The numbers of the surviving rows after the shift, in order. */
  function ShiftedNumbers(n: nat, which: set<int>): (r: seq<int>)
    ensures var k := KeptNumbers(n, which, 1);
      |r| == |k| && forall i :: 0 <= i < |k| ==> r[i] == Stored(k[i] + SHIFT)
  {
    var k := KeptNumbers(n, which, 1);
    seq(|k|, i requires 0 <= i < |k| => Stored(k[i] + SHIFT))
  }

  /** `d` holds the surviving rows, each once. */
  ghost predicate Survives(d: seq<Row>, topics: seq<string>, which: set<int>) {
    && (forall i, j :: 0 <= i < j < |d| ==> d[i].pos != d[j].pos)
    && (forall i :: 0 <= i < |d| ==>
          1 <= d[i].pos <= |topics| && d[i].pos !in which && topics[d[i].pos - 1] == d[i].message)
    && (forall p :: 1 <= p <= |topics| && p !in which ==> exists i :: 0 <= i < |d| && d[i].pos == p)
  }

  lemma DeletedSurvive(rows: seq<Row>, topics: seq<string>, which: set<int>)
    requires Lists(rows, topics)
    ensures Survives(Deleted(rows, which), topics, which)
  {
    hide Deleted;
    DeletedKeeps(rows, which);
    var d := Deleted(rows, which);
    forall i | 0 <= i < |d|
      ensures 1 <= d[i].pos <= |topics| && d[i].pos !in which && topics[d[i].pos - 1] == d[i].message
    {
      ListedRow(rows, topics, d[i]);
    }
    forall p | 1 <= p <= |topics| && p !in which ensures exists i :: 0 <= i < |d| && d[i].pos == p {
      StillThere(rows, topics, which, d, p);
    }
    hide Lists;
  }

  lemma ListedRow(rows: seq<Row>, topics: seq<string>, r: Row)
    requires Lists(rows, topics) && r in rows
    ensures 1 <= r.pos <= |topics| && topics[r.pos - 1] == r.message
  {
  }

  lemma StillThere(rows: seq<Row>, topics: seq<string>, which: set<int>, d: seq<Row>, p: int)
    requires Lists(rows, topics) && 1 <= p <= |topics| && p !in which
    requires forall r :: r in rows && r.pos !in which ==> r in d
    ensures exists i :: 0 <= i < |d| && d[i].pos == p
  {
    var k := RowAt(rows, topics, p);
    hide Lists;
    assert rows[k] in d;
  }

  lemma StoredApart(which: set<int>, n: nat, p: int, q: int)
    requires ShiftFits(which, n) && p <= n && q <= n && p != q && p !in which && q !in which
    ensures Stored(p + SHIFT) != Stored(q + SHIFT)
    ensures p < q ==> Stored(p + SHIFT) < Stored(q + SHIFT)
  {
  }

  lemma ShiftedApart(d: seq<Row>, topics: seq<string>, which: set<int>)
    requires Survives(d, topics, which) && ShiftFits(which, |topics|)
    ensures var r := Updated(d, ShiftUp()); forall i, j :: 0 <= i < j < |r| ==> r[i].pos != r[j].pos
  {
    var r := Updated(d, ShiftUp());
    forall i, j | 0 <= i < j < |r| ensures r[i].pos != r[j].pos {
      StoredApart(which, |topics|, d[i].pos, d[j].pos);
    }
  }

  lemma ShiftedIncrease(n: nat, which: set<int>)
    requires ShiftFits(which, n)
    ensures Increasing(ShiftedNumbers(n, which))
  {
    var k, t := KeptNumbers(n, which, 1), ShiftedNumbers(n, which);
    KeptIncrease(n, which, 1);
    forall i, j | 0 <= i < j < |t| ensures t[i] < t[j] {
      assert k[i] in k && k[j] in k;
      StoredApart(which, n, k[i], k[j]);
    }
  }

  /** Row by row: the surviving row and its place in the list of surviving numbers. */
  lemma PlaceOf(d: seq<Row>, topics: seq<string>, which: set<int>, i: nat) returns (l: nat)
    requires Survives(d, topics, which) && i < |d|
    ensures var k := KeptNumbers(|topics|, which, 1); l < |k| && k[l] == d[i].pos
    ensures ShiftedNumbers(|topics|, which)[l] == Updated(d, ShiftUp())[i].pos
  {
    var k := KeptNumbers(|topics|, which, 1);
    KeptIncrease(|topics|, which, 1);
    assert d[i].pos in k;
    l :| 0 <= l < |k| && k[l] == d[i].pos;
  }

  lemma RowOf(d: seq<Row>, topics: seq<string>, which: set<int>, l: nat) returns (i: nat)
    requires Survives(d, topics, which) && l < |KeptNumbers(|topics|, which, 1)|
    ensures i < |d| && d[i].pos == KeptNumbers(|topics|, which, 1)[l]
    ensures ShiftedNumbers(|topics|, which)[l] == Updated(d, ShiftUp())[i].pos
  {
    var k := KeptNumbers(|topics|, which, 1);
    KeptIncrease(|topics|, which, 1);
    assert k[l] in k;
    i :| 0 <= i < |d| && d[i].pos == k[l];
  }

  /** The snapshot of the shifted rows lists the surviving numbers, shifted. */
  lemma SnapshotIs(d: seq<Row>, topics: seq<string>, which: set<int>)
    requires Survives(d, topics, which) && ShiftFits(which, |topics|)
    ensures Positions(Ordered(Updated(d, ShiftUp()))) == ShiftedNumbers(|topics|, which)
  {
    var shifted := Updated(d, ShiftUp());
    var s, t := Positions(Ordered(shifted)), ShiftedNumbers(|topics|, which);
    ShiftedApart(d, topics, which);
    ShiftedIncrease(|topics|, which);
    PositionsIncrease(shifted);
    PositionsSame(shifted);
    hide *;
    forall p | true ensures p in s <==> p in t {
      if p in s {
        var i :| 0 <= i < |shifted| && shifted[i].pos == p;
        var l := PlaceOf(d, topics, which, i);
        assert t[l] == p;
      }
      if p in t {
        var l :| 0 <= l < |t| && t[l] == p;
        var i := RowOf(d, topics, which, l);
        assert shifted[i].pos == p;
      }
    }
    UniqueIncreasing(s, t);
  }

  /** The shifted numbers fit the renumbering: each is at least its rank, and there are no more than the column
      numbers. */
  lemma ShiftedRoom(n: nat, which: set<int>)
    requires n <= POS_MAX
    ensures var t := ShiftedNumbers(n, which); |t| <= POS_MAX && forall j :: 0 <= j < |t| ==> t[j] >= 1 + j
  {
    var k, t := KeptNumbers(n, which, 1), ShiftedNumbers(n, which);
    KeptIncrease(n, which, 1);
    forall j | 0 <= j < |t| ensures t[j] >= 1 + j && j < POS_MAX {
      assert k[0] in k && k[j] in k;
      IncreasingAtLeast(k, 1, j);
    }
    if t != [] {
      var last := |t| - 1;
      assert k[0] in k && k[last] in k;
      IncreasingAtLeast(k, 1, last);
    }
  }

  /** After the renumbering every surviving row stands where list deletion puts its text. */
  lemma RankOf(d: seq<Row>, topics: seq<string>, which: set<int>, i: nat) returns (l: nat)
    requires Survives(d, topics, which) && ShiftFits(which, |topics|) && |topics| <= POS_MAX && i < |d|
    ensures var r := Renumbered(Updated(d, ShiftUp()), ShiftedNumbers(|topics|, which), 1);
      var w := Without(topics, which, 1);
      && |r| == |d| && l < |w| && r[i].pos == 1 + l && w[l] == r[i].message
      && l < |ShiftedNumbers(|topics|, which)| && ShiftedNumbers(|topics|, which)[l] == Updated(d, ShiftUp())[i].pos
  {
    hide KeptNumbers, Without, Renumbered, Increasing, ShiftFits, ShiftedNumbers;
    var t, shifted := ShiftedNumbers(|topics|, which), Updated(d, ShiftUp());
    ShiftedIncrease(|topics|, which);
    ShiftedRoom(|topics|, which);
    RenumberedRanks(shifted, t, 1);
    WithoutAt(topics, which, 1);
    l := PlaceOf(d, topics, which, i);
    assert topics[d[i].pos - 1] == d[i].message == shifted[i].message;
  }

  ghost predicate Ranked(r: seq<Row>, w: seq<string>, shifted: seq<Row>, t: seq<int>, i: nat) {
    && i < |r| && i < |shifted|
    && 1 <= r[i].pos <= |w| && w[r[i].pos - 1] == r[i].message
    && r[i].pos <= |t| && t[r[i].pos - 1] == shifted[i].pos
  }

  lemma RankedLists(r: seq<Row>, w: seq<string>, shifted: seq<Row>, t: seq<int>)
    requires |r| == |w| == |shifted| && forall i :: 0 <= i < |r| ==> Ranked(r, w, shifted, t, i)
    requires forall i, j :: 0 <= i < j < |shifted| ==> shifted[i].pos != shifted[j].pos
    ensures Lists(r, w)
  {
    forall i | 0 <= i < |r| ensures 1 <= r[i].pos <= |w| && w[r[i].pos - 1] == r[i].message {
      assert Ranked(r, w, shifted, t, i);
    }
    forall i, j | 0 <= i < j < |r| ensures r[i].pos != r[j].pos {
      assert Ranked(r, w, shifted, t, i) && Ranked(r, w, shifted, t, j);
    }
  }

  lemma DeleteKeepsOrder(rows: seq<Row>, topics: seq<string>, which: set<int>)
    requires Lists(rows, topics) && |topics| <= POS_MAX && ShiftFits(which, |topics|)
    ensures Lists(AfterDelete(rows, which), Without(topics, which, 1))
  {
    var d, w := Deleted(rows, which), Without(topics, which, 1);
    var shifted, t := Updated(d, ShiftUp()), ShiftedNumbers(|topics|, which);
    DeletedSurvive(rows, topics, which);
    SnapshotIs(d, topics, which);
    ShiftedApart(d, topics, which);
    WithoutAt(topics, which, 1);
    RenumberedSize(shifted, t, 1);
    var r := AfterDelete(rows, which);
    forall i | 0 <= i < |r| ensures Ranked(r, w, shifted, t, i) {
      var l := RankOf(d, topics, which, i);
    }
    RankedLists(r, w, shifted, t);
  }

  lemma {:induction false} RenumberedSize(rows: seq<Row>, snap: seq<int>, which: int)
    ensures |Renumbered(rows, snap, which)| == |rows|
    decreases snap
  {
    if snap != [] {
      RenumberedSize(Updated(rows, Moved(snap[0], which)), snap[1..], which + 1);
    }
  }

  /** Deleting topics is list deletion, in which the survivors keep their order, if and only if the shift drives no
      two survivors against the end of the column. */
  lemma {:induction false} DeleteLists(rows: seq<Row>, topics: seq<string>, which: set<int>)
    requires Lists(rows, topics) && |topics| <= POS_MAX
    ensures Lists(AfterDelete(rows, which), Without(topics, which, 1)) <==> ShiftFits(which, |topics|)
  {
    if ShiftFits(which, |topics|) {
      DeleteKeepsOrder(rows, topics, which);
    } else {
      var p, q :| POS_MAX - SHIFT <= p < q <= |topics| && p !in which && q !in which;
      var d := Deleted(rows, which);
      DeletedSurvive(rows, topics, which);
      var i :| 0 <= i < |d| && d[i].pos == p;
      var j :| 0 <= j < |d| && d[j].pos == q;
      DeleteTies(d, i, j);
    }
  }

  lemma DeleteTies(d: seq<Row>, i: nat, j: nat)
    requires i < |d| && j < |d| && i != j && d[i].pos >= POS_MAX - SHIFT && d[j].pos >= POS_MAX - SHIFT
    ensures var shifted := Updated(d, ShiftUp()); var r := Renumbered(shifted, Positions(Ordered(shifted)), 1);
      |r| == |d| && r[i].pos == r[j].pos
  {
    var shifted := Updated(d, ShiftUp());
    TiesStay(shifted, Positions(Ordered(shifted)), 1, i, j);
  }

  // ---------------------------------------------------------------- the condition of a deletion

  /** The numbers that name one of `topics` topics. */
  function Named(numbers: seq<int>, topics: nat): (r: seq<nat>)
    ensures forall x :: x in r <==> x in numbers && 1 <= x <= topics
  {
    if numbers == [] then []
    else
      var last := numbers[|numbers| - 1];
      assert numbers == numbers[..|numbers| - 1] + [last];
      Named(numbers[..|numbers| - 1], topics) + if 1 <= last <= topics then [last] else []
  }

  function ConditionBuffer(numbers: seq<int>, topics: nat): (r: string)
    ensures |r| <= CLAUSE_MAX
  {
    Clip(Condition(Named(numbers, topics)), CLAUSE_MAX)
  }

  /** The positions that the condition of a deletion picks, if there is a condition and MySQL takes it. */
  function Chosen(numbers: seq<int>, topics: nat): Option<set<int>> {
    var picks := Read(ConditionBuffer(numbers, topics));
    if Named(numbers, topics) == [] || picks.Broken? then None else Some(Picked(picks, POS_MAX))
  }

  function ItemBehind(buffer: string, x: nat): string {
    (if buffer != "" then " OR " else "") + Item(x)
  }

  lemma BufferEmpty(numbers: seq<int>, topics: nat)
    ensures ConditionBuffer(numbers, topics) == "" <==> Named(numbers, topics) == []
  {
    var ns := Named(numbers, topics);
    assert ns != [] ==> |Condition(ns)| >= |Item(ns[0])| > 0;
  }

  lemma NoNumbers(topics: nat)
    ensures ConditionBuffer([], topics) == ""
  {
  }

  /** One number more in the buffer. */
  lemma BufferNext(numbers: seq<int>, i: nat, topics: nat)
    requires i < |numbers|
    ensures var b, x := ConditionBuffer(numbers[..i], topics), numbers[i];
      ConditionBuffer(numbers[..i + 1], topics)
        == if 1 <= x <= topics then Appended(b, ItemBehind(b, x), CLAUSE_MAX) else b
  {
    var ns, x := Named(numbers[..i], topics), numbers[i];
    assert numbers[..i + 1][..i] == numbers[..i] && ns + [] == ns;
    BufferEmpty(numbers[..i], topics);
    if 1 <= x <= topics {
      assert Named(numbers[..i + 1], topics) == ns + [x];
      ConditionLast(ns, x);
      hide Condition, Item, Named;
      AppendedClips(Condition(ns), (if ns != [] then " OR " else "") + Item(x), CLAUSE_MAX);
      assert "" + Item(x) == Item(x);
    }
  }

  // ---------------------------------------------------------------- the commands

  /** The rows of one channel, and the channel's two topic flags. No statement fails. */
  class TopicTable {
    var rows: seq<Row>
    var topicChange: bool
    var topicReset: bool

    constructor ()
      ensures rows == [] && !topicChange && !topicReset
    {
      rows, topicChange, topicReset := [], false, false;
    }

    /** `insertnewtopic`, the text already stripped of control characters. */
    method InsertNewTopic(topic: string, pos: int, readOnly: bool) returns (ok: bool)
      modifies this
      ensures ok <==> 1 <= pos <= TOPICS_MAX && pos <= |old(rows)| + 1
      ensures rows == if ok && !readOnly then AfterInsert(old(rows), pos, topic) else old(rows)
      ensures topicChange == (old(topicChange) || ok) && topicReset == old(topicReset)
    {
      if !(1 <= pos <= TOPICS_MAX) || !(1 <= pos <= |rows| + 1) {
        return false;
      }
      if !readOnly {
        rows := Updated(rows, RoomAt(pos));
        rows := rows + [Row(Stored(pos), Clip(topic, MESSAGE_MAX))];
      }
      topicChange := true;
      return true;
    }

    /** `addnewtopic` */
    method AddNewTopic(topic: string, readOnly: bool) returns (ok: bool)
      modifies this
      ensures ok <==> |old(rows)| < TOPICS_MAX
      ensures rows == if ok && !readOnly then AfterInsert(old(rows), |old(rows)| + 1, topic) else old(rows)
      ensures topicChange == (old(topicChange) || ok) && topicReset == old(topicReset)
    {
      ok := InsertNewTopic(topic, |rows| + 1, readOnly);
    }

    /** `edittopic`, the text already stripped of control characters. */
    method EditTopic(topic: string, pos: int, readOnly: bool) returns (ok: bool)
      modifies this
      ensures ok <==> 1 <= pos <= TOPICS_MAX && pos <= |old(rows)|
      ensures rows == if ok && !readOnly then AfterEdit(old(rows), pos, topic) else old(rows)
      ensures topicChange == (old(topicChange) || ok) && topicReset == old(topicReset)
    {
      if !(1 <= pos <= TOPICS_MAX) || !(1 <= pos <= |rows|) {
        return false;
      }
      if !readOnly {
        rows := AfterEdit(rows, pos, topic);
      }
      topicChange := true;
      return true;
    }

    /** `deltopics` */
    method DelTopics(readOnly: bool)
      modifies this
      ensures rows == (if readOnly then old(rows) else []) && topicChange && topicReset == old(topicReset)
    {
      if !readOnly {
        rows := [];
      }
      topicChange := true;
    }

    /** `setnewtopic`, the text already stripped of control characters. */
    method SetNewTopic(topic: string, readOnly: bool) returns (ok: bool)
      modifies this
      ensures ok && topicChange && topicReset == old(topicReset)
      ensures rows == if readOnly then old(rows) else AfterInsert([], 1, topic)
    {
      DelTopics(readOnly);
      ok := InsertNewTopic(topic, 1, readOnly);
    }

    /** `swaptopic` */
    method SwapTopic(x: int, y: int, readOnly: bool) returns (ok: bool)
      modifies this
      ensures ok <==> 1 <= x <= TOPICS_MAX && x <= |old(rows)| && 1 <= y <= TOPICS_MAX && y <= |old(rows)|
      ensures rows == if ok && !readOnly then AfterSwap(old(rows), x, y) else old(rows)
      ensures topicChange == (old(topicChange) || ok) && topicReset == old(topicReset)
    {
      var topics := |rows|;
      if !(1 <= x <= TOPICS_MAX) || !(1 <= x <= topics) || !(1 <= y <= TOPICS_MAX) || !(1 <= y <= topics) {
        return false;
      }
      if !readOnly {
        rows := Updated(rows, Moved(x, PARKING));
        rows := Updated(rows, Moved(y, x));
        rows := Updated(rows, Moved(PARKING, y));
      }
      topicChange := true;
      return true;
    }

    /** `deltopic`, the numbers already read off the command line. Without a condition, or with one that MySQL
        refuses, nothing is deleted. */
    method DelTopic(numbers: seq<int>, readOnly: bool) returns (ok: bool)
      modifies this
      ensures ok <==> !readOnly && Chosen(numbers, |old(rows)|).Some?
      ensures rows == if ok then AfterDelete(old(rows), Chosen(numbers, |old(rows)|).value) else old(rows)
      ensures topicChange == (old(topicChange) || ok)
      ensures topicReset == (old(topicReset) || (!readOnly && |old(rows)| == 1 && 1 in numbers))
    {
      if readOnly {
        return false;
      }
      hide ConditionBuffer, ItemBehind, Appended, Named, Read, Picked, Deleted, Updated, Renumbered;
      var topics := |rows|;
      var outstring := "";
      var i := 0;
      NoNumbers(topics);
      while i < |numbers|
        invariant 0 <= i <= |numbers|
        invariant outstring == ConditionBuffer(numbers[..i], topics)
        invariant rows == old(rows) && topicChange == old(topicChange)
        invariant topicReset == (old(topicReset) || (topics == 1 && 1 in numbers[..i]))
      {
        var which := numbers[i];
        assert numbers[..i + 1] == numbers[..i] + [which];
        BufferNext(numbers, i, topics);
        if 1 <= which <= topics {
          if topics == 1 && which == 1 {
            topicReset := true;
          }
          outstring := Appended(outstring, ItemBehind(outstring, which), CLAUSE_MAX);
        }
        i := i + 1;
      }
      assert numbers[..i] == numbers;
      BufferEmpty(numbers, topics);
      if outstring == "" {
        return false;
      }
      var picks := Read(outstring);
      if picks.Broken? {
        return false;
      }
      rows := Deleted(rows, Picked(picks, POS_MAX));
      rows := Updated(rows, ShiftUp());
      Renumber();
      topicChange := true;
      return true;
    }

    /** The last loop of `deltopic`: the result of the SELECT is fetched before the first UPDATE. */
    method Renumber()
      modifies this`rows
      ensures rows == Renumbered(old(rows), Positions(Ordered(old(rows))), 1)
    {
      var snap := Positions(Ordered(rows));
      ghost var goal := Renumbered(rows, snap, 1);
      var which := 1;
      assert snap[0..] == snap;
      while which <= |snap|
        invariant 1 <= which <= |snap| + 1
        invariant goal == Renumbered(rows, snap[which - 1..], which)
      {
        assert snap[which - 1..][1..] == snap[which..];
        rows := Updated(rows, Moved(snap[which - 1], which));
        which := which + 1;
      }
    }
  }

  /** A table of twenty topics still takes one in the middle; after that `swaptopic` loses the parking slot. */
  lemma {:induction false} MiddleInsertUncapped(rows: seq<Row>, topics: seq<string>, pos: int, topic: string,
                                                x: int, y: int)
    requires Lists(rows, topics) && |topics| == TOPICS_MAX && 1 <= pos <= TOPICS_MAX
    requires 1 <= x <= TOPICS_MAX && 1 <= y <= TOPICS_MAX
    ensures var r, t := AfterInsert(rows, pos, topic), InsertedAt(topics, pos, Clip(topic, MESSAGE_MAX));
      |t| == TOPICS_MAX + 1 && Lists(r, t) && !Lists(AfterSwap(r, x, y), Swapped(t, x, y))
  {
    var stored := Clip(topic, MESSAGE_MAX);
    InsertLists(rows, topics, pos, stored);
    assert AfterInsert(rows, pos, stored) == AfterInsert(rows, pos, topic);
    SwapLists(AfterInsert(rows, pos, topic), InsertedAt(topics, pos, stored), x, y);
  }

  // ---------------------------------------------------------------- reading the list back

  function Messages(rows: seq<Row>): (r: seq<string>)
    ensures |r| == |rows| && forall i :: 0 <= i < |rows| ==> r[i] == rows[i].message
  {
    seq(|rows|, i requires 0 <= i < |rows| => rows[i].message)
  }

  lemma OrderedFrom(rows: seq<Row>, k: nat) returns (i: nat)
    requires k < |rows|
    ensures i < |rows| && rows[i] == Ordered(rows)[k]
  {
    OrderedSorts(rows);
    var r := Ordered(rows)[k];
    assert r in multiset(Ordered(rows));
    assert r in rows;
    i :| 0 <= i < |rows| && rows[i] == r;
  }

  lemma OrderedAt(rows: seq<Row>, topics: seq<string>, k: nat)
    requires Lists(rows, topics) && k < |topics|
    ensures Ordered(rows)[k] == Row(k + 1, topics[k])
  {
    PositionsIncrease(rows);
    var s := Positions(Ordered(rows));
    var i := OrderedFrom(rows, k);
    var first := OrderedFrom(rows, 0);
    var last := OrderedFrom(rows, |rows| - 1);
    IncreasingAtLeast(s, 1, k);
    IncreasingAtMost(s, |topics|, k);
  }

  /** The SELECT ... ORDER BY pos of `settopic` reads the list. */
  lemma {:induction false} OrderedReads(rows: seq<Row>, topics: seq<string>)
    requires Lists(rows, topics)
    ensures Messages(Ordered(rows)) == topics
  {
    var m := Messages(Ordered(rows));
    forall k | 0 <= k < |m| ensures m[k] == topics[k] {
      OrderedAt(rows, topics, k);
    }
  }

  lemma {:induction false} IncreasingAtMost(s: seq<int>, high: int, k: nat)
    requires Increasing(s) && k < |s| && s[|s| - 1] <= high
    ensures s[k] <= high - (|s| - 1 - k)
    decreases |s| - k
  {
    if k < |s| - 1 {
      IncreasingAtMost(s, high, k + 1);
    }
  }
}
