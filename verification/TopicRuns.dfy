/** Runs of the topic commands of one channel: the table against the list that the users have in mind. */
module TopicRuns {
  import opened Chars
  import opened Options
  import opened TopicClauses
  import opened Topics
  import opened TopicText

  /** The commands as the bot carries them out when it may write, with their texts as typed. */
  datatype Command =
    | Insert(topic: string, pos: int)
    | Add(topic: string)
    | Edit(topic: string, pos: int)
    | Swap(x: int, y: int)
    | Delete(numbers: seq<int>)
    | Renew(topic: string)
    | Reload(line: string)

  /** Both numbers are of topics, and no command takes one above the limit. */
  predicate Takes(pos: int, topics: nat) {
    1 <= pos <= TOPICS_MAX && pos <= topics
  }

  function RowsAfter(rows: seq<Row>, c: Command): seq<Row> {
    match c
    case Insert(topic, pos) => if Takes(pos, |rows| + 1) then AfterInsert(rows, pos, Strip(topic)) else rows
    case Add(topic) => if |rows| < TOPICS_MAX then AfterInsert(rows, |rows| + 1, Strip(topic)) else rows
    case Edit(topic, pos) => if Takes(pos, |rows|) then AfterEdit(rows, pos, Strip(topic)) else rows
    case Swap(x, y) => if Takes(x, |rows|) && Takes(y, |rows|) then AfterSwap(rows, x, y) else rows
    case Delete(numbers) =>
      var which := Chosen(numbers, |rows|);
      if which.Some? then AfterDelete(rows, which.value) else rows
    case Renew(topic) => AfterInsert([], 1, Strip(topic))
    case Reload(line) => Loaded(Kept(line))
  }

  function TopicsAfter(topics: seq<string>, c: Command): seq<string> {
    match c
    case Insert(topic, pos) => if Takes(pos, |topics| + 1) then InsertedAt(topics, pos, Strip(topic)) else topics
    case Add(topic) => if |topics| < TOPICS_MAX then topics + [Strip(topic)] else topics
    case Edit(topic, pos) => if Takes(pos, |topics|) then Edited(topics, pos, Strip(topic)) else topics
    case Swap(x, y) => if Takes(x, |topics|) && Takes(y, |topics|) then Swapped(topics, x, y) else topics
    case Delete(numbers) =>
      var which := Chosen(numbers, |topics|);
      if which.Some? then Without(topics, which.value, 1) else topics
    case Renew(topic) => [Strip(topic)]
    case Reload(line) => Kept(line)
  }

  /** The columns have a number for one more row and hold the text, the parking slot of a swap is free, the shift of a
      deletion has room. */
  predicate Bounded(topics: seq<string>, c: Command) {
    match c
    case Insert(topic, pos) => Takes(pos, |topics| + 1) ==> |topics| < POS_MAX && |Strip(topic)| <= MESSAGE_MAX
    case Add(topic) => |topics| < TOPICS_MAX ==> |Strip(topic)| <= MESSAGE_MAX
    case Edit(topic, pos) => Takes(pos, |topics|) ==> |Strip(topic)| <= MESSAGE_MAX
    case Swap(x, y) => Takes(x, |topics|) && Takes(y, |topics|) ==> |topics| <= TOPICS_MAX
    case Delete(numbers) =>
      var which := Chosen(numbers, |topics|);
      which.Some? ==> ShiftFits(which.value, |topics|)
    case Renew(topic) => |Strip(topic)| <= MESSAGE_MAX
    case Reload(_) => true
  }

  ghost predicate StepRight(rows: seq<Row>, topics: seq<string>, c: Command) {
    && (Lists(RowsAfter(rows, c), TopicsAfter(topics, c)) <==> Bounded(topics, c))
    && (Bounded(topics, c) ==> |TopicsAfter(topics, c)| <= POS_MAX)
  }

  lemma InsertStep(rows: seq<Row>, topics: seq<string>, pos: int, topic: string)
    requires Lists(rows, topics) && |topics| <= POS_MAX
    ensures StepRight(rows, topics, Insert(topic, pos))
  {
    assert |rows| == |topics|;
    hide Lists, AfterInsert, AfterEdit, AfterSwap, AfterDelete, Chosen, ShiftFits, Kept, Loaded, Strip;
    hide InsertedAt, Edited, Swapped, Without;
    if Takes(pos, |topics| + 1) {
      InsertLists(rows, topics, pos, Strip(topic));
    }
  }

  lemma InsertedLast(topics: seq<string>, topic: string)
    ensures InsertedAt(topics, |topics| + 1, topic) == topics + [topic]
  {
  }

  lemma AddStep(rows: seq<Row>, topics: seq<string>, topic: string)
    requires Lists(rows, topics) && |topics| <= POS_MAX
    ensures StepRight(rows, topics, Add(topic))
  {
    assert |rows| == |topics|;
    hide Lists, AfterInsert, AfterEdit, AfterSwap, AfterDelete, Chosen, ShiftFits, Kept, Loaded, Strip;
    hide InsertedAt, Edited, Swapped, Without;
    if |topics| < TOPICS_MAX {
      InsertLists(rows, topics, |topics| + 1, Strip(topic));
      InsertedLast(topics, Strip(topic));
    }
  }

  lemma EditedSize(topics: seq<string>, pos: int, topic: string)
    requires 1 <= pos <= |topics|
    ensures |Edited(topics, pos, topic)| == |topics|
  {
  }

  lemma EditStep(rows: seq<Row>, topics: seq<string>, pos: int, topic: string)
    requires Lists(rows, topics) && |topics| <= POS_MAX
    ensures StepRight(rows, topics, Edit(topic, pos))
  {
    assert |rows| == |topics|;
    hide Lists, AfterInsert, AfterEdit, AfterSwap, AfterDelete, Chosen, ShiftFits, Kept, Loaded, Strip;
    hide InsertedAt, Edited, Swapped, Without;
    if Takes(pos, |topics|) {
      EditLists(rows, topics, pos, Strip(topic));
      EditedSize(topics, pos, Strip(topic));
    }
  }

  lemma SwapStep(rows: seq<Row>, topics: seq<string>, x: int, y: int)
    requires Lists(rows, topics) && |topics| <= POS_MAX
    ensures StepRight(rows, topics, Swap(x, y))
  {
    assert |rows| == |topics|;
    hide Lists, AfterInsert, AfterEdit, AfterSwap, AfterDelete, Chosen, ShiftFits, Kept, Loaded, Strip;
    hide InsertedAt, Edited, Swapped, Without;
    if Takes(x, |topics|) && Takes(y, |topics|) {
      SwapLists(rows, topics, x, y);
    }
  }

  lemma DeleteStep(rows: seq<Row>, topics: seq<string>, numbers: seq<int>)
    requires Lists(rows, topics) && |topics| <= POS_MAX
    ensures StepRight(rows, topics, Delete(numbers))
  {
    assert |rows| == |topics|;
    hide Lists, AfterInsert, AfterEdit, AfterSwap, AfterDelete, Chosen, ShiftFits, Kept, Loaded, Strip;
    hide InsertedAt, Edited, Swapped, Without;
    var which := Chosen(numbers, |topics|);
    if which.Some? {
      DeleteLists(rows, topics, which.value);
      WithoutShorter(topics, which.value, 1);
    }
  }

  lemma RenewStep(rows: seq<Row>, topics: seq<string>, topic: string)
    ensures StepRight(rows, topics, Renew(topic))
  {
    hide AfterInsert, AfterEdit, AfterSwap, AfterDelete, Chosen, ShiftFits, Kept, Loaded, Strip;
    hide Edited, Swapped, Without;
    var none: seq<string> := [];
    InsertLists([], none, 1, Strip(topic));
    assert InsertedAt(none, 1, Strip(topic)) == [Strip(topic)];
  }

  lemma ReloadStep(rows: seq<Row>, topics: seq<string>, line: string)
    ensures StepRight(rows, topics, Reload(line)) && |Kept(line)| <= TOPICS_MAX
  {
    hide Lists, AfterInsert, AfterEdit, AfterSwap, AfterDelete, Chosen, ShiftFits, Kept, Loaded, Strip;
    hide InsertedAt, Edited, Swapped, Without;
    KeptShort(line);
    LoadedLists(Kept(line));
  }

  lemma {:induction false} WithoutShorter(topics: seq<string>, which: set<int>, first: int)
    ensures |Without(topics, which, first)| <= |topics|
  {
    if topics != [] {
      WithoutShorter(topics[1..], which, first + 1);
    }
  }

  lemma StepLists(rows: seq<Row>, topics: seq<string>, c: Command)
    requires Lists(rows, topics) && |topics| <= POS_MAX
    ensures StepRight(rows, topics, c)
  {
    match c {
      case Insert(topic, pos) => InsertStep(rows, topics, pos, topic);
      case Add(topic) => AddStep(rows, topics, topic);
      case Edit(topic, pos) => EditStep(rows, topics, pos, topic);
      case Swap(x, y) => SwapStep(rows, topics, x, y);
      case Delete(numbers) => DeleteStep(rows, topics, numbers);
      case Renew(topic) => RenewStep(rows, topics, topic);
      case Reload(line) => ReloadStep(rows, topics, line);
    }
    hide *;
  }

  // ---------------------------------------------------------------- runs

  function RowsOf(run: seq<Command>): seq<Row> {
    if run == [] then [] else RowsAfter(RowsOf(run[..|run| - 1]), run[|run| - 1])
  }

  function TopicsOf(run: seq<Command>): seq<string> {
    if run == [] then [] else TopicsAfter(TopicsOf(run[..|run| - 1]), run[|run| - 1])
  }

  ghost predicate ListsAt(run: seq<Command>, k: nat)
    requires k <= |run|
  {
    Lists(RowsOf(run[..k]), TopicsOf(run[..k]))
  }

  predicate BoundedAt(run: seq<Command>, k: nat)
    requires k < |run|
  {
    Bounded(TopicsOf(run[..k]), run[k])
  }

  /** The table reads the list before the run and after each command of it. */
  ghost predicate ListsThroughout(run: seq<Command>) {
    forall k :: 0 <= k <= |run| ==> ListsAt(run, k)
  }

  predicate BoundedThroughout(run: seq<Command>) {
    forall k :: 0 <= k < |run| ==> BoundedAt(run, k)
  }

  lemma PrefixAt(run: seq<Command>, n: nat, k: nat)
    requires k <= n <= |run|
    ensures run[..n][..k] == run[..k] && (ListsAt(run[..n], k) <==> ListsAt(run, k))
    ensures k < n ==> (BoundedAt(run[..n], k) <==> BoundedAt(run, k))
  {
    assert run[..n][..k] == run[..k];
    hide RowsOf, TopicsOf, Lists, Bounded;
  }

  lemma ListsPrefix(run: seq<Command>)
    requires run != []
    ensures ListsThroughout(run) <==> ListsThroughout(run[..|run| - 1]) && ListsAt(run, |run|)
  {
    var n := |run| - 1;
    forall k | 0 <= k <= n ensures ListsAt(run[..n], k) <==> ListsAt(run, k) {
      PrefixAt(run, n, k);
    }
    hide ListsAt;
  }

  lemma BoundedPrefix(run: seq<Command>)
    requires run != []
    ensures BoundedThroughout(run) <==> BoundedThroughout(run[..|run| - 1]) && BoundedAt(run, |run| - 1)
  {
    var n := |run| - 1;
    forall k | 0 <= k < n ensures BoundedAt(run[..n], k) <==> BoundedAt(run, k) {
      PrefixAt(run, n, k);
    }
    hide BoundedAt;
  }

  lemma StepListsAt(run: seq<Command>)
    requires run != [] && ListsAt(run, |run| - 1) && |TopicsOf(run[..|run| - 1])| <= POS_MAX
    ensures ListsAt(run, |run|) <==> BoundedAt(run, |run| - 1)
    ensures BoundedAt(run, |run| - 1) ==> |TopicsOf(run)| <= POS_MAX
  {
    var n := |run| - 1;
    assert run[..|run|] == run;
    StepLists(RowsOf(run[..n]), TopicsOf(run[..n]), run[n]);
    hide Lists, Bounded, RowsAfter, TopicsAfter;
  }

  /** From an empty table, over every run of commands: the table reads the list throughout if and only if every command
      finds its bound kept. */
  lemma {:induction false} RunLists(run: seq<Command>)
    ensures ListsThroughout(run) <==> BoundedThroughout(run)
    ensures BoundedThroughout(run) ==> |TopicsOf(run)| <= POS_MAX
    decreases |run|
  {
    if run == [] {
      assert run[..0] == [];
    } else {
      var n := |run| - 1;
      RunLists(run[..n]);
      ListsPrefix(run);
      BoundedPrefix(run);
      PrefixAt(run, n, n);
      if ListsThroughout(run[..n]) {
        StepListsAt(run);
      }
      hide ListsAt, BoundedAt, BoundedThroughout, TopicsOf;
    }
  }

  /** The text a command stores, once stripped. */
  function TextOf(c: Command): string {
    match c
    case Insert(topic, _) => Strip(topic)
    case Add(topic) => Strip(topic)
    case Edit(topic, _) => Strip(topic)
    case Renew(topic) => Strip(topic)
    case _ => ""
  }

  /** No text past its column, and no insertion into a full list. */
  predicate Careful(topics: seq<string>, c: Command) {
    |TextOf(c)| <= MESSAGE_MAX && (c.Insert? ==> |topics| < TOPICS_MAX)
  }

  predicate CarefulThroughout(run: seq<Command>) {
    forall k :: 0 <= k < |run| ==> Careful(TopicsOf(run[..k]), run[k])
  }

  lemma StaysSmall(topics: seq<string>, c: Command)
    requires |topics| <= TOPICS_MAX && Careful(topics, c)
    ensures Bounded(topics, c) && |TopicsAfter(topics, c)| <= TOPICS_MAX
  {
    hide Chosen, Kept, Strip;
    match c {
      case Delete(numbers) =>
        var which := Chosen(numbers, |topics|);
        if which.Some? {
          WithoutShorter(topics, which.value, 1);
        }
      case Reload(line) => ReloadStep([], topics, line);
      case _ =>
    }
  }

  lemma CarefulBefore(run: seq<Command>)
    requires run != [] && CarefulThroughout(run)
    ensures var n := |run| - 1; CarefulThroughout(run[..n]) && Careful(TopicsOf(run[..n]), run[n])
  {
    assert forall k :: 0 <= k < |run| ==> run[..|run| - 1][..k] == run[..k];
    hide TopicsOf, Careful;
  }

  lemma SmallStep(run: seq<Command>)
    requires run != []
    ensures TopicsOf(run) == TopicsAfter(TopicsOf(run[..|run| - 1]), run[|run| - 1])
    ensures BoundedAt(run, |run| - 1) <==> Bounded(TopicsOf(run[..|run| - 1]), run[|run| - 1])
  {
  }

  /** What breaks a table is only ever an insertion into a full one or a text past its column: without them the list
      holds at most twenty topics and the table reads it throughout. */
  lemma {:induction false} SmallRunLists(run: seq<Command>)
    requires CarefulThroughout(run)
    ensures ListsThroughout(run) && |TopicsOf(run)| <= TOPICS_MAX
    decreases |run|
  {
    RunLists(run);
    if run != [] {
      CarefulBefore(run);
      SmallRunLists(run[..|run| - 1]);
      RunLists(run[..|run| - 1]);
      BoundedPrefix(run);
      StaysSmall(TopicsOf(run[..|run| - 1]), run[|run| - 1]);
      SmallStep(run);
      hide *;
    }
  }

  // ---------------------------------------------------------------- the commands on a table

  /** The command, as it is dispatched to a table that may be written. */
  method Perform(table: TopicTable, c: Command)
    modifies table
    ensures table.rows == RowsAfter(old(table.rows), c)
  {
    hide Strip, Chosen, Kept, Loaded, Lists, AfterInsert, AfterEdit, AfterSwap, AfterDelete;
    match c {
      case Insert(topic, pos) =>
        var text := StripText(topic);
        var ok := table.InsertNewTopic(text, pos, false);
      case Add(topic) =>
        var text := StripText(topic);
        var ok := table.AddNewTopic(text, false);
      case Edit(topic, pos) =>
        var text := StripText(topic);
        var ok := table.EditTopic(text, pos, false);
      case Swap(x, y) => var ok := table.SwapTopic(x, y, false);
      case Delete(numbers) => var ok := table.DelTopic(numbers, false);
      case Renew(topic) =>
        var text := StripText(topic);
        var ok := table.SetNewTopic(text, false);
      case Reload(line) => var ok := GetTopic(table, line, false);
    }
  }

  /** A whole run on a new table. */
  method PerformAll(run: seq<Command>) returns (table: TopicTable)
    ensures fresh(table) && table.rows == RowsOf(run)
  {
    table := new TopicTable();
    var i := 0;
    hide RowsAfter;
    while i < |run|
      invariant 0 <= i <= |run| && fresh(table) && table.rows == RowsOf(run[..i])
    {
      assert run[..i + 1][..i] == run[..i];
      Perform(table, run[i]);
      i := i + 1;
    }
    assert run[..i] == run;
  }

  // ---------------------------------------------------------------- what a deletion deletes

  lemma {:induction false} SameWithout(topics: seq<string>, a: set<int>, b: set<int>, first: int)
    requires forall p :: first <= p < first + |topics| ==> (p in a <==> p in b)
    ensures Without(topics, a, first) == Without(topics, b, first)
  {
    if topics != [] {
      SameWithout(topics[1..], a, b, first + 1);
    }
  }

  lemma {:induction false} InUpTo(n: nat, p: int)
    ensures p in UpTo(n) <==> 1 <= p <= n
  {
    if n > 0 {
      InUpTo(n - 1, p);
    }
  }

  /** A deletion that names topics takes those from the list and no others, if its condition picks as named; up to 39
      numbers always do. */
  lemma {:induction false} DeletesNamed(topics: seq<string>, numbers: seq<int>)
    requires |topics| <= POS_MAX
    ensures var ns := Named(numbers, |topics|);
      ns != [] && AsNamed(ns, |topics|) ==> TopicsAfter(topics, Delete(numbers)) == Without(topics, NumbersIn(ns), 1)
    ensures var ns := Named(numbers, |topics|); ns != [] && |ns| <= 39 ==> AsNamed(ns, |topics|)
    ensures Named(numbers, |topics|) == [] ==> TopicsAfter(topics, Delete(numbers)) == topics
  {
    var n, ns := |topics|, Named(numbers, |topics|);
    if ns != [] {
      var picks := Read(ConditionBuffer(numbers, n));
      if AsNamed(ns, n) {
        var which := Picked(picks, POS_MAX);
        forall p | 1 <= p <= n ensures p in which <==> p in NumbersIn(ns) {
          InUpTo(n, p);
          InUpTo(POS_MAX, p);
        }
        SameWithout(topics, which, NumbersIn(ns), 1);
      }
      assert forall i :: 0 <= i < |ns| ==> ns[i] in ns;
      ConditionShort(ns);
      NamedPicked(ns, n);
    }
  }

  /** A topic is added behind the others exactly while there are fewer than twenty. */
  lemma {:induction false} TwentyTopics(topics: seq<string>, topic: string)
    ensures TopicsAfter(topics, Add(topic)) == if |topics| < 20 then topics + [Strip(topic)] else topics
  {
  }
}
