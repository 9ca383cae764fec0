# A verified model of oer+MySQL

oer+MySQL is an IRC bot that keeps channels in order: it bans and kicks, maintains channel modes and topics, knows
its users and moves from server to server. This project models the parts of it where correctness is not obvious from
reading one function, and proves what those parts promise.

| file | what it is about |
|---|---|
| `Wildcards.dfy`, `LossyPatterns.dfy`, `CaseBlindness.dfy` | the glob matcher of `reg.c`: the loop with its two backtrack points, what a pattern means, when the two agree, and that letter case does not matter |
| `BanMasks.dfy`, `BanTypes.dfy` | `safeban`: the choice of a ban mask that hits the target and spares the bot, and whom each ban type hits |
| `SortedQueue.dfy` | the doubly linked, sorted queues `timeds` and `mmodes`, node by node on the heap |
| `Scheduler.dfy`, `Pacing.dfy`, `Holding.dfy`, `Delivery.dfy`, `Ranking.dfy` | the command queue drained under the rate limiter; rate safety, progress, waiting times and order over whole runs |
| `Batching.dfy`, `Flushing.dfy`, `NickModes.dfy` | channel modes waiting to be sent, collected into MODE commands, and followed through nick changes |
| `ModeLines.dfy`, `ModeRestoring.dfy`, `LockKeeping.dfy` | those MODE commands, as they leave, read back as mode lines; the mode that restores a channel, its key and its limit |
| `BanKick.dfy`, `MainLoop.dfy`, `BanLifting.dfy` | the ban-kick command, and the turns of the main loop: the ban goes out before the kick and is lifted in time, nothing is lost |
| `CommandTexts.dfy` | the texts of the commands, read back word by word |
| `Topics.dfy`, `TopicClauses.dfy`, `TopicRuns.dfy` | the numbered topics in the table `oer_topics`, the condition that a deletion builds, and whole runs of topic commands |
| `TopicText.dfy` | the topic line that topics are split from and joined into |
| `Flags.dfy` | flag strings as sets: sorting, validating, adding and removing |
| `ChanModes.dfy`, `ModeReading.dfy` | channel mode lines: filtering, decoding, and which parameter each mode change gets |
| `ModeReactions.dfy`, `ModeActions.dfy`, `Replies.dfy`, `GuardLoop.dfy` | what the bot does about those changes: the book of operators and bans, the protection of the channel, what is sent, and how the answers leave and what they undo |
| `ProtocolMessages.dfy`, `Words.dfy` | lines from the server, taken apart and put together again |
| `Logons.dfy`, `LogonRuns.dfy` | who is logged on, and what that means over whole runs |
| `Servers.dfy` | the rotation through the server list |
| `Chars.dfy`, `Options.dfy`, `Multisets.dfy` | ASCII letter case, C strings, a value that may be missing, counting |

Where the original changes things step by step, so does the model: the queues are nodes with `prev` and `next`, the
matcher, the parsers and the sort are loops, and each such method is proved against a function of its inputs or of the
old state. What is claimed of the original is then proved of these functions, over all inputs or over all runs.

The clock is an input of every operation. A C string is a `string` without its NUL. SQL statements are updates of a
sequence of rows; where the outcome of a statement decides what happens in memory (the deletion of a session, the
insertion of one) it is an input.

## What the code does not do

Some of what one would expect is not so, and is proved not to be so, with the exact condition where there is one.

- The matcher accepts no string that the pattern does not mean, but it can miss one: behind a `%` it takes the first
  place where the fixed characters fit and does not come back once a space has been taken or a second `%` reached. It
  misses nothing if the string holds no space or no `%` of the pattern is blurred. A `%` is blurred by a `?` between it
  and the next `%`, or by one that comes to stand on the next literal space when the characters in between are moved
  along themselves and still fit; unless only `?` and `%` follow there up to a `*`. For every pattern without `*`, and
  without a backslash at its end, that is exact: each one with a blurred `%` misses some string (`Wildcards.WildMatch`,
  `LossyPatterns.SharpExactly`).
- A ban mask for a target without wildcards hits it if and only if it fits the buffer and shows no backslash, or is cut
  in one of two places where that does no harm (`BanMasks.BanMaskHits`).
- A kick or wall whose channel is gone stays on the queue for ever, and with it everything behind it: given time, what
  is left of a queue of due commands is exactly the part from the first such command on (`Pacing.LeftExactly`).
- The walks over waiting modes dereference NULL at a mode without a target when a user leaves or changes nick
  (`NickModes.InitMmodesForNick`, `ChangeMmodesForNick`).
- The MODE command of a batch, as it is sent, is understood as the modes of the batch if and only if neither the buffer
  for the letters nor the 510 characters ahead of the newline cut it. A line that is longer leaves without its newline
  (`ModeLines.BatchReadBack`); so does a TOPIC command (`TopicText.TopicLeaves`).
- The mode that restores a channel sends a limit along with a `-l`, which takes none; the next mode that takes a
  parameter gets it instead of its own (`ModeRestoring.RestoringProper`, `LimitTaken`).
- A topic can be inserted in the middle of a full list; swapping then loses the parking slot. A topic of more than 255
  characters is cut by its column. In a run with neither the table reads the list throughout
  (`Topics.MiddleInsertUncapped`, `InsertLists`, `TopicRuns.RunLists`, `SmallRunLists`).
- The condition that a deletion of topics builds is cut at its buffer: a number that is cut names another topic, a bare
  `pos` every topic. Those named are deleted, and no others, if and only if the condition fits or the cut happens to do
  no harm (`TopicClauses.CutIsRead`, `NamedPicked`); up to 39 numbers fit.
- `nthmode` and `getnthmode` report the same changes all along a line if and only if no limit ahead of the first sign
  has a change of a known kind ahead of it; such a limit is reported as of that kind (`ChanModes.DecodersAgree`,
  `KindCarried`).
- A MODE line with too few parameters has one change acted on with an empty name (`ModeReading.MissingParam`).
- The session check has a session one second longer than the clean-up (`LogonRuns.LastSecond`). A logon is valid if and
  only if there is a good session with no session of a deleted user ahead of it (`LogonRuns.ValidExactly`). A logoff
  leaves a session if and only if the database fails to delete one, and with channel flag `x` that session counts until
  a later clean-up deletes it (`LogonRuns.LogOffHolds`, `LogOffOutlivedExactly`).

## Model

| member | source | states |
|---|---|---|
| Wildcards.Scan | reg.c:49-161 | the loop terminates on every pattern and string (by star, restart of the star, percent, restart of the percent and pattern position) and returns the number of literals exactly when the first-fit reading of the pattern accepts, through every rollback of the counters; else -1 |
| Wildcards.WildMatch | reg.c:163-167 | the result is 0 or 1 plus the number of literals of the pattern; what is accepted is a match; nothing is missed when the string is one word or no `%` of the pattern is blurred |
| Wildcards.CommitsSound | reg.c:49-161 | soundness for every pattern and string: what first fit accepts, the declarative reading accepts |
| Wildcards.MatchCommits | reg.c:49-161 | completeness, for every pattern: with a string of one word, or with no blurred `%` in the pattern, every match is found by first fit |
| LossyPatterns.SharpExactly | reg.c:49-161 | and for every pattern without `*` (and without a backslash at its end) only then: it finds all its matches if and only if no `%` of it is blurred |
| Wildcards.NoPercentSharp | reg.c:49-161 | a pattern without `%` meets the condition for completeness |
| Wildcards.LostAtSpace | reg.c:96-150 | a pattern and a string it means that the matcher rejects, at a literal space |
| Wildcards.LostAtPercent | reg.c:80-150 | the same at a second `%` |
| CaseBlindness.CaseBlind | reg.c:49-161 | verdict and count stay the same when letters of the pattern or of the string change case |
| CaseBlindness.CasePairs | reg.c:49-161 | two different characters count as the same exactly when they are one of the 26 letters in both cases |
| CaseBlindness.LiteralsArePlain | reg.c:49-161 | without a backslash the count is that of the characters that are no wildcards |
| BanMasks.IsTrusted | ds.c:5186-5198 | a host is trusted exactly when one of the trusted masks matches it |
| BanMasks.SafeBan | ds.c:10860-10939 | the method returns the mask of the first allowed ban type of the chain, or NULL when there is none; what the types and the chain are, the next four rows say |
| BanTypes.TypesHit | ds.c:10885-10919 | whom a ban of each of the seven types hits, for any two users: everybody of the host, of the user, of user and host, of the nick, and so on, letter case aside |
| BanTypes.MasksRead | ds.c:10885-10919 | and the text of each of the seven masks |
| BanTypes.TypesTried | ds.c:10880-10934 | from each type on, the mask is that of the first allowed one of an explicit list of types; no other number has any |
| BanTypes.AllowedMeans | ds.c:10881-10934 | a type is allowed exactly if the host is not trusted, for the host type, and the mask does not mean the bot, on a channel with flag `b` |
| BanTypes.TrustedMeans | ds.c:5186-5198 | a host is trusted exactly if some trusted mask means it |
| BanMasks.MaskHits | ds.c:10878-10925 | a mask of any type matches its own target if and only if the parts it shows hold no backslash |
| BanMasks.MaskExact | ds.c:10878-10925 | for these masks the matcher is exact, against any string |
| BanMasks.ChosenMask | ds.c:10860-10939 | the mask chosen hits its target unless it shows a backslash, never matches the bot on a channel with flag `b`, and never is the host-wide mask of a trusted host |
| BanMasks.NullOnlyForMyself | ds.c:10860-10939 | for a target without wildcards and backslashes that fits, NULL comes out if and only if the channel has flag `b` and the target is the bot, letter case aside |
| BanMasks.FullMaskAlone | ds.c:10860-10939 | the narrowest mask matches the target and nobody else |
| BanMasks.BanMaskHits | ds.c:10860-10939 | for every ban type and every target without wildcards: the mask that leaves the buffer matches its target if and only if it is whole and shows no backslash, or lost only the star of an empty host, or was cut right behind the star of the user |
| BanMasks.CutMaskMisses | ds.c:10860-10939 | so a full mask of 101 characters or more never matches its target |
| BanMasks.BackslashNickMissed | ds.c:10860-10939 | a nick with a backslash whose mask misses it |
| Words.Parse | misc.c:454-501 | the next word, the place behind it and its spaces, -1 for a word that does not fit |
| SortedQueue.Queue.Insert | ds.c:11728-11810 | relinks the nodes so that the list stays well formed, with the new node ahead of the first it precedes and all others in place; `mmode_new` (ds.c:11866-11955) is the same code |
| SortedQueue.Queue.Delete | ds.c:11812-11838 | unlinks exactly that node; `mmode_del` (ds.c:11957-11989) is the same code |
| SortedQueue.InsertedSorted | ds.c:11728-11810 | insertion keeps the order and the elements, and puts the newcomer behind all its equals |
| SortedQueue.RemovedInserted | ds.c:11812-11838 | deletion undoes insertion |
| Scheduler.TimedCmpIsOrder | ds.c:11840-11864 | the comparison is antisymmetric and transitive |
| Ranking.SortedIsRanked | ds.c:11840-11864 | a queue is sorted by it exactly if higher priorities come first, and within a priority earlier times |
| Ranking.Overtakes | ds.c:11728-11810 | a newcomer overtakes exactly what has a lower priority, or the same and a later time |
| Ranking.PassInRank | network.c:493-535 | no command is handled in a pass while a due one of higher priority stays behind, nor an earlier one of the same |
| Ranking.HigherFirst | network.c:493-535 | over every run, whatever comes in: a due command leaves before everything of a lower priority |
| Ranking.HigherFirstLoop | oer+MySQL.c:323-333 | and so over every run of the main loop |
| Scheduler.Bot.ProcessActions | network.c:539-604 | the limiter: its verdict and the new time of the last action and barrier, branch by branch |
| Scheduler.Bot.TryOne | network.c:493-535 | a due command stays, is dropped or is sent, and the pace afterwards |
| Scheduler.Bot.DrainQueue | network.c:493-535 | the walk over the linked queue sends, removes and leaves exactly what the pass over the sequence does |
| Scheduler.Bot.ProcessTimeds | network.c:467-537 | the whole call, with the barrier lowered first when time has passed; by how much, `Holding.IdleCall` says |
| Holding.IdleCall | network.c:490-492 | a call that finds nothing queued takes exactly one off the barrier, if time has passed since the last action |
| Holding.IdleWorksOff | network.c:490-492 | so many idle calls take so much off the barrier, down to nothing |
| Holding.HeldBack | network.c:558-570 | over every run: behind a barrier of b, the next b - 1 calls admit nothing but channel modes and the like |
| Holding.ModesPass | network.c:558-564 | which pass any barrier once time has moved on |
| Holding.LeavesOnCall | network.c:490-535 | the very call in which any other command leaves |
| Holding.Prices | network.c:571-602 | what a command of each priority, kind and length costs, in calls |
| Holding.OnlyOnTheNetwork | network.c:477-489 | nothing leaves ahead of the registration or during a netjoin |
| Holding.DroppedKick | network.c:503-515 | a kick is dropped unsent exactly if its channel was unlocked |
| Holding.FirstChannel | ds.c:4076-4088 | a channel is the first of its name, letter case aside |
| Pacing.AtMostFive | network.c:490-492 | over every run at most five commands are admitted at any one clock value, whatever happens to the queue between calls |
| Pacing.FiveReached | network.c:545-560 | five are admitted in one call |
| Pacing.UnknownPrioUnlimited | network.c:545-603 | why the bound asks for the named priorities: the switch has no default, so a priority that no caller passes would cost nothing |
| Pacing.DrainLedger | network.c:545-603 | in one pass the barrier grows by exactly the charges of the admitted commands |
| Pacing.BookBalances | network.c:490-603 | over every run the barrier at the end is the one at the start plus the charges less the decrements |
| Pacing.ProcessWorksOff | network.c:490-535 | every call after the last action strictly lowers barrier plus outstanding work |
| Pacing.Empties | network.c:490-535 | a closed queue of due commands is empty after that many calls |
| Pacing.LeftExactly | network.c:490-535 | what that many calls leave of any closed queue of due commands, exactly: the part from the first kick or wall without its channel on |
| Pacing.EmptiesExactly | network.c:505-507 | so it empties if and only if every kick and wall on it has its channel |
| Delivery.DrainPrefix | network.c:493-535 | a pass handles exactly a prefix of the due commands and leaves the rest where it was |
| Delivery.DrainSends | network.c:500-530 | what is written is what was handled, in order, except kicks on a channel unlocked meanwhile |
| Delivery.DrainStops | network.c:493-535 | where a pass stops, exactly: at the first due command that the limiter refuses, whose channel is missing or whose line finds no room on the wire, at the pace that the commands before it leave; the number of lines written, the pace returned, and that a failed write is reported only for the last reason |
| Delivery.DrainKeeps | network.c:493-535 | handled and left over together are the queue, as multisets |
| Delivery.DrainSorted | network.c:493-535 | what is left is still sorted |
| Delivery.InOrder | network.c:493-535 | over every run no command leaves the queue ahead of one of the same priority that was queued before and due earlier |
| Batching.MmodeCmpIsOrder | ds.c:11866-11955 | waiting modes are ordered by time alone |
| Batching.SortedByTime | ds.c:11866-11955 | exactly the queues in the order of their times are sorted |
| Batching.FlushConserves | ds.c:11991-12047 | the batches joined are the due modes in queue order; the others remain, in order |
| Batching.FlushFills | ds.c:12034-12045 | every batch but the last is full, none is empty |
| Batching.FlushInTime | ds.c:12017-12036 | no batch is queued later than any of its modes, or than now |
| Batching.FlushTimes | ds.c:12017-12036 | every batch of a channel is queued for the time of the first mode that waits there, and there is one exactly if that mode is due |
| Batching.BuffersClip | ds.c:12013-12044 | the command and target buffers hold the plain concatenations, cut at their sizes |
| Batching.FlushChannel | ds.c:12003-12046 | the walk over one channel's linked list queues those batches and leaves those modes |
| ModeLines.BatchReadBack | ds.c:12013-12044 | the MODE command of a batch of proper modes (signed runs of known letters with as many words as they take), as it is sent, ends in a newline and, read back as a mode line, asks for exactly the changes of the batch, each with its target, if and only if neither the buffer for the letters nor that for the line cuts it |
| ModeLines.UncutMeans | ds.c:12013-12044 | nothing cuts it exactly up to 50 letters and 510 characters in all |
| Flushing.Mmodes2Timeds | ds.c:11991-12047 | the same for all channels in turn, none of them disturbing another |
| NickModes.InitMmodesForNick | ds.c:12938-12956 | the walk removes the nodes of the modes for a nick and no others; it gets through if and only if every mode has a target |
| NickModes.ChangeMmodesForNick | ds.c:12958-12971 | the walk renames targets in place; it gets through if and only if every mode has a target |
| NickModes.WithoutLeaves | ds.c:12938-12956 | exactly the modes for others remain, in order |
| NickModes.RenamedSorted | ds.c:12958-12971 | renaming keeps the queue in order |
| NickModes.RenameThenLeave | ds.c:12938-12971 | changing nick and leaving removes the modes under both nicks |
| BanKick.BanUser | ds.c:5600-5622 | a `+b` and a `-b` are queued for the mask that `safeban` gives, if any; for when, `BanLifting.BanForItsTime` says |
| BanLifting.BanForItsTime | ds.c:5616-5619 | where nothing waited for the mask, exactly two modes wait for it afterwards: `+b` at the time of the ban and `-b` when the ban time is over |
| BanLifting.BanLasts | ds.c:5616-5619 | end to end, over every run of the main loop from a ban-kick on in which nothing else ends the ban: no turn before the end of the ban time makes a MODE command with that `-b`, and the first turn from then on makes one |
| BanLifting.MadeLeaves | oer+MySQL.c:323-333 | a MODE command that some turn of a run makes leaves in the run or is still queued at its end |
| BanLifting.UnbanIsRead | ds.c:12013-12044 | and if its modes are proper and nothing cuts it, it asks for the end of the ban of that mask |
| CommandTexts.FirstOfName | ds.c:5608-5610 | the user banned or kicked is the first of that nick, letter case aside |
| CommandTexts.TargetParts | ds.c:10874-10879 | user and host of the target are what its first `@` separates |
| CommandTexts.AskedIs | parse.c:2230-2234 | the nick is the first word of the command line, the reason what follows it |
| CommandTexts.StrippedEnd | misc.c:408-415 | exactly the white space at the end of a reason goes |
| CommandTexts.KickSays | ds.c:10262-10272 | a KICK, read word by word, names the channel, then the user, then the reason |
| CommandTexts.KickFor | ds.c:10243-10273 | whom the KICK is for, which of the three reasons it gives, for when and at which priority it is queued |
| CommandTexts.ModesMayPass | ds.c:12036-12044 | MODE commands rank with the kicks and pass the barrier |
| CommandTexts.KickForBanSays | parse.c:1260-1262 | whoever bans the bot is kicked from that channel at once and told the mask |
| CommandTexts.WhoisSays | parse.c:1202-1203 | a WHOIS names the nick that was deopped |
| CommandTexts.NoticeSays | ds.c:10194-10216 | a punishment is announced to the one punished, by notice or by message, three seconds later |
| BanKick.KickUser | ds.c:10243-10273 | a KICK with the given reason, the channel's, or the bot's nick is queued for a user whose host is known |
| BanKick.BanKickCommand | parse.c:2213-2235 | the command queues the ban one second before the kick, or nothing |
| BanKick.BanBeforeKick | ds.c:5616-5619 | after a ban-kick, with whatever is queued before and after it: the MODE command with the `+b` is handled before the KICK |
| MainLoop.MainTurn | oer+MySQL.c:323-333 | one turn on the heap: flush, then drain, in that order |
| MainLoop.LoopIsRun | oer+MySQL.c:323-333 | the main loop, with its flushes, is a run of the command queue |
| MainLoop.CommandsConserved | oer+MySQL.c:323-333 | over every run: queued, come in or made of modes equals handled plus still queued, as multisets |
| MainLoop.ModesConserved | ds.c:11991-12047 | over every run and for every channel: waiting plus come in equals gone into commands plus gone with users who left plus still waiting, changes of nick aside |
| MainLoop.LoopPaced | oer+MySQL.c:323-333 | over every run of the loop at most five commands are admitted at any one clock value |
| MainLoop.BanKickLoop | oer+MySQL.c:325-328 | end to end: over every run of the loop from a ban-kick on, whatever comes in and whoever else leaves or changes nick, a MODE command with the ban leaves before the kick |
| MainLoop.MaskIsNoNick | parse.c:898-1043 | a ban mask is nobody's nick, so nobody who leaves or changes nick takes the ban along |
| MainLoop.BanIsRead | ds.c:12013-12044 | and if its modes are proper and nothing cuts it, that command, as it is sent, asks for the ban of that mask |
| Topics.InsertLists | ds.c:2234-2266 | shift and insert are list insertion if and only if the columns can number one more row and hold its text |
| Topics.SwapLists | ds.c:2494-2527 | three updates through the parking slot exchange two entries if and only if there are at most 20 topics |
| Topics.RenumberedRanks | ds.c:2456-2473 | in the renumbering loop no update hits a row it already renumbered |
| Topics.DeleteLists | ds.c:2397-2473 | delete, shift and renumber are list deletion, survivors in order, if and only if the shift drives no two survivors against the end of the column |
| Topics.OrderedReads | ds.c:2178-2210 | reading by position gives the list |
| Topics.MiddleInsertUncapped | ds.c:2242-2247 | a 21st topic can be inserted (with its text as far as the column holds it), after which every swap fails |
| Topics.TopicTable.InsertNewTopic | ds.c:2234-2266 | the rows after the statements, with the text cut at its column, or unchanged |
| Topics.TopicTable.SwapTopic | ds.c:2494-2527 | the rows after the three updates, or unchanged |
| Topics.TopicTable.DelTopic | ds.c:2397-2473 | the condition is built in its buffer out of the valid numbers; the rows after deletion of what it picks, shift and renumbering, or unchanged if there is none or MySQL refuses it |
| TopicClauses.CutIsRead | ds.c:2405-2428 | what a condition cut anywhere behind its first item picks: the whole items; for a bare `pos` every row; for a cut number that number; otherwise it is refused |
| TopicClauses.NamedPicked | ds.c:2405-2428 | exactly the topics named are picked if and only if the condition fits its buffer or the cut does no harm |
| TopicClauses.AnotherTopic | ds.c:2405-2428 | a number that is cut is the number of an earlier topic |
| TopicRuns.RunLists | ds.c:2217-2527 | from an empty table, over every run of topic commands: the table reads the list, texts stripped, throughout if and only if every command finds its bound kept: a number and room in the column for its text, a free parking slot, room for the shift |
| TopicRuns.SmallRunLists | ds.c:2217-2527 | which is so in every run that inserts nothing into a full list and no text past its column |
| TopicRuns.TwentyTopics | ds.c:2226-2245 | a topic is added exactly while there are fewer than twenty |
| TopicRuns.Perform | parse.c:1607-1821 | each command, dispatched to the table, makes of its rows what the runs say |
| TopicRuns.PerformAll | parse.c:1607-1821 | and so does a whole run on a new table |
| TopicRuns.DeletesNamed | ds.c:2397-2473 | a deletion takes the topics named from the list if its condition picks as named, as it does for up to 39 numbers |
| TopicText.GetTopic | ds.c:2297-2342 | the table holds the pieces of the line, stripped, up to the 20th; success if there are no more; a bot that may not write leaves the table alone |
| TopicText.SetTopic | ds.c:2167-2215 | the TOPIC command with the topics joined, cut at the line buffer |
| TopicText.RemoveColors | misc.c:311-336 | the loop that drops colour codes |
| TopicText.RemoveControls | misc.c:293-309 | the loop that drops control characters |
| TopicText.ColorGoes | misc.c:311-336 | a coloured passage keeps its text and loses marks and code, and the texts around it stay |
| TopicText.ControlsGo | misc.c:293-309 | exactly the control characters are dropped |
| TopicText.OneTopic | ds.c:2297-2342 | a text without a separator is kept whole if and only if it has at most 250 characters |
| TopicText.SplitJoin | ds.c:2297-2342 | joining what was split gives the text if and only if its pieces fit |
| TopicText.JoinSplit | ds.c:2200-2210 | splitting what was joined gives the list if and only if no topic is too long or holds the separator, none but the last ends in its first half, and the last is not empty |
| TopicText.TopicRoundTrip | ds.c:2297-2342 | a control-free line comes back the same if and only if its pieces fit, are at most 20, and it does not end in a separator |
| TopicText.TopicSentBack | ds.c:2200-2213 | the TOPIC command carries it back whole if and only if, besides, it fits the line buffer |
| TopicText.TopicLeaves | ds.c:2200-2213 | and what is sent is that line with its newline if and only if there is room for the newline, too |
| TopicText.ListRoundTrip | ds.c:2167-2342 | the converse: a list of topics comes back the same if and only if it is splittable and has at most 20 entries |
| Flags.SortString | misc.c:698-739 | the bubble sort leaves a permutation in order: by letter, upper case first |
| Flags.CanonicalUnique | misc.c:698-739 | a set of flags has one sorted string without repetition |
| Flags.OrderMeans | misc.c:698-739 | the order in plain terms: by letter, of one letter upper case first |
| Flags.ValidateFlags | ds.c:12484-12523 | keeps the known flags, each where it first stands |
| Flags.ValidatedKeeps | ds.c:12484-12523 | the result has exactly the known flags, each once |
| Flags.FlagField.DeltaFlags | ds.c:5030-5072 | the new string, and 0 if and only if there is nothing to add or remove |
| Flags.DeltaIsChange | ds.c:5030-5072 | on canonical flags the change is set union or difference with a canonical result; the string stays the same exactly when 0 is returned |
| Flags.AddThenRemove | ds.c:5030-5072 | adding flags that were not set and removing them gives back the identical string |
| Flags.TypedChange | ds.c:7872-7885 | from whatever was typed: validated, it fits the buffer, and the flags change by its known letters |
| ChanModes.FilterOutChanModes | misc.c:965-989 | the two loops write the kept letters with their signs, cut at the buffer, without signs at the end |
| ChanModes.FilterMeans | misc.c:965-989 | the output means the input without the excluded letters if and only if what remains fits; a cut loses only the end; no sign is left at the end |
| ChanModes.FilterKeepsPolar | ds.c:12408-12431 | when what remains fits, the sign of every kept mode is unchanged and that of a removed one is unknown |
| ChanModes.GetModePol | ds.c:12408-12431 | the sign of the first change of that mode |
| LockKeeping.PolarIs | ds.c:12408-12431 | that is, of the one with no change of the mode ahead of it |
| ChanModes.PairAt | ds.c:11003-11029 | each letter of a line is one change, in order, with the nearest sign ahead of it |
| ChanModes.KindTable | ds.c:10956-10998 | the kind of every change by its sign and letter: `+o` makes an operator, `-o` unmakes one, and so on |
| ChanModes.NthMode | ds.c:10941-11001 | the kind of the change at that index of the one-pass reading; which kind that is, `ChanModes.KindTable` says |
| ChanModes.GetNthMode | ds.c:11003-11029 | sign and letter of the change at that index, counting from 1 |
| ChanModes.KindCarried | ds.c:10982-10988 | the kind reported at an index is that of the last change up to it that is no unsigned limit; it is the change's own if and only if the change is no unsigned limit or there is no known kind to carry over |
| ChanModes.DecodersAgree | ds.c:10941-11029 | both decoders report the changes of the one-pass reading all along a line if and only if no limit ahead of the first sign has a change of a known kind ahead of it; they report them all, and all of them signed, if and only if the line starts with a sign or shows no change; which kind is reported instead is said by `KindCarried` |
| ChanModes.UnsignedLimit | ds.c:10982-10988 | an instance where they do not |
| ModeReading.Channel.ReadModes | parse.c:1101-1161 | the loop finds for each change the word whose number is the number of parameters before it, in order and up to the first that is missing, and notes key and limit |
| ModeReading.AllModesRead | parse.c:1101-1118 | a line of known changes with enough parameters is read in full, each change with its own parameter, whatever the spaces |
| ModeReading.MissingParam | parse.c:1110-1149 | with too few, the first change without one is acted on with an empty name and is the last |
| ModeReading.ModeMessageRead | parse.c:85-87 | the same from the server's line on |
| ModeReading.LastKeyWins | parse.c:1115-1131 | after changes by others the key is that of the last change of it |
| ModeReading.Channel.SetChanMode | ds.c:10754-10804 | the modes and targets queued to restore the channel mode, and what becomes of key and limit |
| ModeRestoring.RestoringProper | ds.c:10754-10804 | what is queued is a proper mode, with as many words as its letters take, if and only if it sends no limit along with `-l` |
| ModeRestoring.LimitTaken | ds.c:10783-10799 | otherwise the next mode takes the limit: the ban that follows is one of the limit |
| LockKeeping.RestoringPolar | ds.c:10754-10804 | what the restoring mode asks for, letter by letter: what the channel mode does, and key or limit exactly when they are known and not set, with their sign |
| LockKeeping.KeyTakenOff | parse.c:1124-1131 | a key that somebody takes off is put back if the channel is to have one, else forgotten |
| LockKeeping.KeyPutOn | parse.c:1118-1123 | a key that somebody sets is the key from then on, or taken off if the channel is to have none |
| LockKeeping.LimitTakenOff | parse.c:1153-1163 | a limit that somebody takes off is put back if the channel is to have one, else forgotten |
| LockKeeping.LimitPutOn | parse.c:1133-1141 | a limit that somebody sets is the limit from then on, or taken off if the channel is to have none |
| LockKeeping.RestoredOnce | ds.c:10754-10804 | after restoring, nothing is due until the next change, and what is not wanted is forgotten |
| ModeActions.Room.ActOnLine | parse.c:1168-1328 | the second half of the loop body, change by change: members, bans and the bot's own status, the modes that wait and the commands that are queued afterwards, with the notice to whom it punishes |
| ModeReactions.BookIsRight | parse.c:1169-1241 | after every line each member is operator, and has voice, as the last change for the nick says, and so is the bot |
| ModeReactions.BansAreRight | parse.c:1242-1273 | and a ban is listed as the last change of it says |
| ModeReactions.GuardsExactly | parse.c:1184-1325 | what any line by somebody who is not trusted makes the bot set, exactly: the mode that undoes each unwelcome change after which it is operator, and one `-o` for him after every fourth deop if he is punishable |
| Replies.RepliesExactly | parse.c:1184-1319 | the commands that any line makes the bot send, exactly and in order: a WHOIS for each deop, a KICK for each ban of the bot by somebody it may kick, a notice with each punishment |
| Replies.FourDeops | parse.c:1306-1320 | a punishment comes with every fourth deop |
| Replies.AsksForOp | parse.c:1204-1209 | the bot asks for operator 300 seconds after a line exactly if some deop in it left the channel without one |
| Replies.SetsModeAgain | parse.c:1287-1302 | the channel mode is set again exactly after a line by somebody else that changes one |
| Replies.ResetsPermanent | parse.c:1272-1286 | the permanent bans are set again exactly after a line by which somebody who is not trusted took one away while the bot was operator |
| GuardLoop.AnswersLeave | parse.c:1184-1325 | over every run from there on: each mode that the bot sets because of a line, undoing or punishing, leaves in a MODE command or its command is still queued, unless the user it is for leaves or changes nick first |
| GuardLoop.UndoingAsked | parse.c:1184-1325 | and the mode that undoes an unwelcome change is among them whenever the bot is operator after that change |
| GuardLoop.AnswerOpposes | parse.c:1184-1284 | from the answer back to the reading: the mode set against a change is, read as a mode line, the opposite change of the same target |
| GuardLoop.AnswerUndoes | parse.c:1169-1284 | and when it comes back from the server, the book has it undone |
| GuardLoop.PermanentReturn | parse.c:1323-1328 | the modes set again when a line took a permanent ban away are read as bans of all permanent masks |
| GuardLoop.PunishmentDeops | parse.c:1316-1318 | the mode that punishes is read as a deop of the one punished |
| ModeReactions.TrustedUnopposed | parse.c:1187-1316 | a trusted author meets no resistance, whatever the line |
| ModeReactions.Powerless | parse.c:1182-1325 | without being operator the bot sets nothing |
| ProtocolMessages.ParseProtocolMessage | misc.c:503-578 | the four fields and the index of the rest, never past the end |
| ProtocolMessages.PrintsBack | misc.c:503-578 | for every line and all buffer sizes: fields, skipped spaces and colons, and rest print back to the line |
| ProtocolMessages.ParsesPrinted | misc.c:503-578 | a printed message is parsed into its fields if and only if they fit, for any numbers of spaces and with or without the optional colons; the index is where the rest begins |
| Logons.Sessions.AddNewAuthed | ds.c:11568-11622 | appends a session, of now or of the time that the database has for it, unless one for the same handle and host is active |
| Logons.Sessions.CleanAutheds | ds.c:11624-11726 | the walk over the linked list unlinks exactly what it should, and counts it |
| Logons.Sessions.LogOff | ds.c:10098-10119 | marks every session of the handle and cleans; success if there was one |
| Logons.Sessions.LogOn | ds.c:10121-10166 | adds, stores and cleans; a failed insertion leaves the session in memory |
| Logons.Sessions.IsValidLogon | ds.c:5416-5459 | the verdict of the walk over sessions, users and masks |
| LogonRuns.CleanedIsFresh | ds.c:11676-11715 | with a working database cleaning keeps exactly the sessions neither expired nor logged off, in order |
| LogonRuns.LogOffHolds | ds.c:10098-10119 | a logoff leaves a session of the handle if and only if the database did not delete one |
| LogonRuns.LogOffOutlivedExactly | ds.c:11676-11715 | over every run in which the handle does not log on again it still has a session for a host if and only if it had one whose deletion failed at the logoff and at every cleaning since |
| LogonRuns.ValidExactly | ds.c:5416-5459 | a logon is valid if and only if there is a good session with no session without a user ahead of it |
| LogonRuns.ValidMeansLoggedOn | ds.c:5416-5459 | over every run a valid logon rests on one with the right password for this host, or one read from the database, not followed by a logoff of the handle and without flag `x` at most 1800 seconds old; or, with flag `x`, on a session that was logged off and never deleted |
| LogonRuns.LogonLasts | ds.c:5416-5459 | over every run a logon that was let in is valid for 1800 seconds, with flag `x` for ever, unless it is ended or a session without a user stands ahead of it |
| LogonRuns.LogonsSpaced | ds.c:11568-11622 | over every run without flag `x`, nobody is logged on twice from one host within 1800 seconds unless logged off in between |
| LogonRuns.LogonOpens | ds.c:10121-10166 | an accepted logon opens a session of now exactly if there is no younger one of that handle and host |
| LogonRuns.FirstUser | ds.c:5442-5449 | the user of a session is the first of its handle, letter case aside |
| LogonRuns.KnownMeans | ds.c:5442-5457 | and the user is known exactly if one of the masks means the host |
| LogonRuns.ForcedClean | ds.c:11676-11715 | a forced cleaning leaves only what the database does not delete |
| LogonRuns.LastSecond | ds.c:5431-5436 | whether a session is valid depends on cleaning in exactly one second |
| LogonRuns.OrphanHides | ds.c:5442-5449 | an instance of a session without a user that hides the one behind it |
| LogonRuns.LogOffOutlived | ds.c:11681-11690 | an instance, with flag `x`, of a logoff that the database does not carry out |
| Servers.Rotation.GetServer | ds.c:1756-1807 | the server chosen on the linked list, the stoned and used marks, the administrator's wish |
| Servers.Rotation.Connect | network.c:246-255 | the chosen server becomes the current one and is marked as used |
| Servers.NoneTwice | ds.c:1756-1807 | over every run, whatever the clock, no server is tried twice before an attempt finds none |
| Servers.TriedBeforeNone | ds.c:1756-1807 | over every run, no attempt finds none before every server that answers was tried |
| Servers.Round | ds.c:1756-1807 | at a fixed time every eligible server is tried exactly once, in list order, then none is found, and it starts over |
| Servers.WishGranted | ds.c:1763-1771 | the administrator's wish is granted once, whatever is known of the server; a wish for a server that is not listed stays |
| Servers.NextInLine | ds.c:1773-1806 | without a wish: the first server behind the current one, or from the top, that is neither used nor known not to answer, and none exactly if there is no such server |
| Servers.StonedSitsOut | ds.c:1787-1798 | a server that did not answer is not taken for 300 seconds, and counts as answering once it is taken |
| Servers.StonedNow | ds.c:1787-1798 | one that is found not to answer is marked with that time and not taken at once |

## Left out

- BanMasks.SafeBan: a target without `@` in its host makes the original dereference NULL, so an `@` is required.
- BanMasks.ChosenMask: for targets that fit the buffers; `BanMasks.BanMaskHits` says what becomes of the others.
- Wildcards.MatchCommits: for patterns with `*` the condition is sufficient only: whether a place that first fit misses is made good by the `*` hangs on the characters in between; `%c?%c*` does not meet it and loses nothing.
- LogonRuns.ValidMeansLoggedOn: without flag `x` the clock is past 1800, as seconds since 1970 are.
- ModeLines.BatchReadBack: for proper modes; what users type into the mode command, and a limit sent with `-l`, need not be one.
- ModeRestoring.RestoringProper: for a channel mode of known letters that starts with a sign and fits, and a key and a limit of one word each.
- BanTypes.AllowedMeans: for targets and a bot whose masks fit the buffers.
- CommandTexts.KickSays: for names of up to 127 characters and a line that fits its buffer.
- LogonRuns.LogonsSpaced: sessions read from the database have any time, so runs with them are left out.
- MainLoop.MaskIsNoNick: for a nick that fits the mask buffer.
- Flags.FlagField.DeltaFlags: longer strings than the flag buffer overrun it in the original and are excluded.
- ModeReading.Channel.ReadModes: the two halves of the loop body change different fields and are modelled as two loops, this one and `ModeActions.Room.ActOnLine`.
- ModeActions.Room.ActOnLine: who may be operator, which bans are permanent and who is trusted are inputs; the synchronisation of a channel after the bot was opped is not modelled.
- Pacing.LeftExactly: as for `Pacing.Empties`.
- Pacing.Empties: the queue is closed, all commands are due, no write fails, and the clock moves on between calls.
- Scheduler.Bot.ProcessTimeds: the barrier is unbounded here and an unsigned integer in the original; a failing write is an input.
- Topics.InsertLists: numbers and texts past their columns are cut at 255, as MySQL does outside strict mode; releases ahead of 5.0.3 also drop spaces at the end of a text.
- Topics.TopicTable.InsertNewTopic: the text is taken as `stripmirc` and `stripcntrl` leave it; `TopicRuns` strips it.
- TopicText.RemoveColors: both stripping loops also stop at 512 characters, which no line exceeds.
- Failing SQL statements on topics, SQL escaping, and query text other than the condition of a deletion.
- Reconnecting, which clears the command queue (`initall`) but not the modes that wait; runs end there.
- The completion of users and channels from the database, `syncadmins` and `syncusers`.
- Flood detection, `getrandom`, bad words, statistics, and the texts of the replies.
- Sockets, signals, name lookup, registration with a server and PONG, which bypass the queue.
- The Perl interface, password hashing, and running out of memory.
- Locales other than ASCII, and NUL characters inside strings.
- The long list of administration commands, which would only add easy members.
