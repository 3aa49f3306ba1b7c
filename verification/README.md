# A verified model of the MrBig agent

MrBig is a monitoring agent for Windows. Most of it calls the operating system, but seven parts of it are
programs in their own right, with state, loops and invariants. This project models these and proves what they
promise, for every input, every run and every behaviour of the surroundings:

* **Reports** (`Status`, `Verdicts`, `Reporter`, `Delivery`, `Sending`): the table that remembers what was last
  reported of each test and decides whether to stay silent, to report green while a grace time runs, or to report the
  real colour, against the rules it follows; the list it is kept in; the delivery of one message to many displays
  over non-blocking sockets; and one call from the decision to the displays.
* **Process tables** (`MergeSort`, `MergeTies`, `Processes`): three chained comparators that never say "equal", an
  in-place merge sort over row pointers, and the printer that skips idle rows.
* **Connections** (`IPv6`, `IPv6Forms`, `Connections`): the address printer, against an independent reader of the
  text form in section 2.2 of RFC 4291, and the summariser that cuts long runs of similar rows.
* **Arena** (`Alignment`, `Arena`, `Defer`, `Script`, `Clientlog`): output that grows from the left, allocations
  that grow from the right through an end pointer that is copied by value, a stack of handles to close, and a whole run
  of the client log, computed on values too, that ends normally or by a throw.
* **Configuration** (`CStrings`, `ConfigText`, `ConfigStore`, `ConfigReader`, `ConfigFiles`): lines packed into one
  bounded buffer per key, read back by index; the reader of files with sections and includes; and these files as
  somebody writes them, line by line.
* **Performance data and COM** (`LittleEndian`, `PerfLayout`, `PerfReader`, `MemberText`, `Invoker`,
  `InvokePath`, `Query`, `FileTime`): a decoder that follows offsets, against a layout relation and an encoder; calls
  through a dotted path of objects with their references and argument strings; and date conversion.
* **Trees** (`SearchTree`, `Applications`, `ApplicationTies`, `Kbs`): two pointer trees that differ in what they do
  with duplicates.

Code that works step by step is a method here, on arrays, classes and linked nodes, proved against a function
or relation on values; what the source promises is then proved of these. The operating system is a parameter
(clock readings, what each socket does, whether an allocation succeeds) or a nondeterministic choice.

`dafny verify dfyconfig.toml` checks everything.

## Findings

Where a promise does not hold of the code as it is, the model keeps the code, and a lemma says exactly when the
promise holds:

* Reports less than `mrsleep` + d apart: exactly when `mrsleep` is at least 1 (`Status.GapBoundExact`).
* The summary of a run of connections promises its highest local port. It shows that of the run's last row, or,
  when the table ends there, of the row before it, because the two records have traded places once too often: it
  is right exactly when no row of the run has a higher port (`Connections.SummaryPortExact`; fails for
  `Connections.SummaryPortExample` and, in a table not in order, `Connections.UnsortedPortExample`).
* A first run of rows with an empty address and PID 0 is counted together with the zeroed record the code starts
  from, and shows nineteen rows (`Connections.TwentyRowsExact`). Real rows have an address.
* An append that takes exactly all the free space of the arena does not throw, but its last character is lost to
  the NUL of `vsnprintf` (`Arena.OutputIsConcat`, `Clientlog.ExactFill`).
* An allocation may begin right after the output, where the terminating NUL is; once its owner writes to it, what
  was written is sent as well, up to the next NUL (`Script.EndsInNulExact`, `Clientlog.OverwrittenEnd`).
* After a throw the error text replaces the end of the output instead of following it, and with less output than
  the error text is long it would be written before the memory (`Script.ErrorMessageExact`,
  `Clientlog.ThrowBeforeOutput`).
* A requested performance counter that the object lacks makes the walk copy with a size and an offset that were
  never set, exactly when there is a block to read from (`PerfReader.ReadPerfCounters`, `PerfReader.ReadMissing`).
* `clog_Defer` chooses the function pointer to assign by the kind its slot had before, which is right only because
  the three pointers share their storage (`Defer.RestsOnTheUnion`).
* `fgets` gives the lines of a file only when each fits in its buffer (`ConfigReader.ChunksAreLines`).
* A file time within 500 ticks of the end of the 64-bit range is accepted and comes back as an instant in 1601
  (`FileTime.PlusFiveHundred`); OLE dates between -1 and 0 do not come back (`FileTime.UnfoldThenFold`).
* Every sort of a process table turns the order of tied rows round. They keep it exactly when each class of tied
  rows reads the same backwards, and a table has one order, whatever order its rows came in, exactly when any two
  different rows are ranked (`MergeTies.SortReversesTies`, `Processes.TiesKeptExact`,
  `Processes.TableCanonicalExact`; fails for `MergeTies.OrderMatters`).
* An application comes out behind those with its key exactly when, on its way down the tree, it never takes the free
  left child of one of them (`ApplicationTies.KeepsOrderExact`, and for whole runs `ApplicationTies.StableExact`;
  fails for `ApplicationTies.DuplicatesAreReordered`).
* Section 4.2.2 of RFC 5952 forbids to write a single zero group as "::". The address printer does it exactly for the
  addresses that have a zero group but no two neighbouring ones (`IPv6Forms.ShortensOneExact`; fails for
  `IPv6Forms.ShortenedExample`).

## Model

| member | source | states |
|---|---|---|
| CStrings.Snprcat | mrbig.c:373-383 | appending inside a buffer leaves the old text and the new one cut to size - 1 characters, NUL-terminated, nothing beyond `size` touched; the result is the uncut length |
| Status.EntryIsLastReport | mrbig.c:615-722 | after any run of calls the entry of a test holds the colour and the time of the last report sent for it, a substituted green included |
| Status.SilenceIsFresh | mrbig.c:645-672 | a silent result implies that the last report for the test showed the current colour and is less than mrsleep old |
| Status.GraceDeadline | mrbig.c:674-721 | while the stored colour is green the deadline is 0 if no non-green was seen since the last real report, and otherwise the time of the first such non-green plus the grace read then |
| Status.AlarmExactlyAtDeadline | mrbig.c:697-721 | a change from green is reported at exactly those non-green calls whose time has reached that deadline, and every earlier one was suppressed |
| Verdicts.VerdictsExact | mrbig.c:615-722 | a list of results is that of a run if and only if each is silent when the display shows this colour already since less than mrsleep, green when it shows green, the call is not green and the grace time since the first non-green after the last real report is not over, and real in every other case: said of the calls and of what is shown alone, which leaves no choice |
| Verdicts.SilentExact | mrbig.c:645-672 | a call is silent if and only if the last report for its test showed its colour and is 0 to mrsleep - 1 seconds old |
| Verdicts.RepeatLeavesNoTrace | mrbig.c:668-672 | such a call can be left out of a run without any difference: a green one between non-greens does not restart the grace time |
| Verdicts.FlapExample | mrbig.c:668-721 | with 300 seconds of grace, green at 90, red at 100, green at 110, red at 120 and red at 400 give a report, green, silence, green, and the alarm |
| Status.ReportGap | mrbig.c:645-721 | with a clock that never goes back and calls at most d apart, consecutive reports are at most d + mrsleep - 1 apart |
| Status.GapBoundExact | mrbig.c:645-672 | the promised bound mrsleep + d holds of every run if and only if mrsleep is at least 1 |
| Status.LoopPeriod | mrbig.c:1048-1057 | start to start a round of the main loop takes the larger of the loop time and the run time plus ten seconds; after the clock was set back the larger of the loop time and ten seconds is slept |
| Status.LoopKeepsDisplayFresh | mrbig.c:569-570 | with the loop time clamped to mrsleep, reports of a test, among the calls of any other tests, stay within two report intervals plus the slack of long rounds |
| Reporter.TestStatus.Observe | mrbig.c:645-721 | the branches that update a node in place have the effect of the decision on values, field by field |
| Reporter.StatusTable.FindNode | mrbig.c:622-628 | the search finds the node of a machine and test, or there is none in the whole list |
| Reporter.StatusTable.AddNode | mrbig.c:629-643 | a test never seen before gets one new node in front, with its colour, the time and no deadline |
| Reporter.StatusTable.InsertStatus | mrbig.c:615-722 | the list stays acyclic with one node per machine and test, the call changes the entry of its own test as decided and no other, and the list is always what the run of calls leaves |
| Reporter.Reporter.MrSend | mrbig.c:867-889 | nothing is sent if and only if the decision is silence, and then the display shows this colour from a report less than mrsleep old; otherwise one report is sent, in green or in the real colour; table and reports agree after every call |
| Reporter.Reporter.Emit | mrbig.c:877-889 | the report says green while the grace time runs and the real colour otherwise |
| Reporter.SilenceAgrees | mrbig.c:669-672 | a silent call leaves the table as it was, and what was last reported is this colour and fresh |
| Reporter.ReportAgrees | mrbig.c:645-721 | after a report the table says of every test what its last report said |
| Reporter.FormatReport | mrbig.c:877-887 | the report text is "status machine.test colour message", cut to report_size - 1 characters |
| Reporter.ReportReads | mrbig.c:863-887 | from a report that is not cut, machine, test, colour and message are read back |
| Reporter.ReportCut | mrbig.c:877-887 | a report with a smaller report_size is the beginning of one with a larger |
| Reporter.LookupGraceIs | mrbig.c:449-457 | the grace time of a test is that of the first entry for it in the list, or 0 |
| Reporter.Reporter.InsertGrace | mrbig.c:428-435 | a new entry counts before older ones for its test, and changes no other test |
| Reporter.Reporter.FindGrace | mrbig.c:449-457 | the search of the list gives that grace time |
| Delivery.SendUpdate | mrbig.c:730-862 | whatever the sockets do, every display that could be set up has received a prefix of the message in order, with no byte skipped or repeated, the others nothing, and all sockets are closed |
| Delivery.SetUp | mrbig.c:738-789 | a display that cannot be set up takes no part; every other starts with the whole message to send |
| Delivery.SendOne | mrbig.c:820-833 | one send moves the position of a live display by what was accepted, and an error or a dead socket moves nothing |
| Delivery.TotalRemaining | mrbig.c:801-813 | the total is zero exactly when every live display has the whole message |
| Delivery.SendLoop | mrbig.c:793-835 | the loop ends only when every live display has everything, when more than ten seconds have passed, or when the clock went back before the start, and goes on in every other case |
| Delivery.EndsOneWay | mrbig.c:810-818 | the behaviour of the surroundings determines after how many rounds and in which way the loop ends |
| Delivery.Progress | mrbig.c:820-833 | nothing is taken back, and a display that accepts a byte in each round has n bytes after n rounds whatever the others do |
| Delivery.PositionIsRoom | mrbig.c:820-833 | a display that was set up has been given as many bytes as its socket had room for in all the rounds, up to the whole message |
| Sending.MrSend | mrbig.c:867-889 | one call from end to end: when the decision is silence no display gets a byte, and the last report shows this colour and is fresh; otherwise every display that could be set up gets a prefix of the report, in green while the grace time runs, as long as its socket took it |
| MergeSort.SortSorts | clientlog/processes.c:197-224 | for every comparison function that ranks strictly, the result is in order |
| MergeSort.SortPermutes | clientlog/processes.c:197-224 | the result holds every row as often as before |
| MergeSort.MergeSorts | clientlog/processes.c:204-218 | merging two ordered halves gives an ordered whole although ties take the right half |
| MergeSort.SortCanonical | clientlog/processes.c:197-224 | rows that can all be told apart have one result, whatever order they came in |
| MergeTies.MergeReversesTies | clientlog/processes.c:204-218 | a merge puts the rows tied with any given row that are in the right half before those in the left half |
| MergeTies.SortReversesTies | clientlog/processes.c:197-224 | in every table, a sort turns the order of the rows tied with any given row round |
| MergeTies.KeepsTiesExact | clientlog/processes.c:197-224 | tied rows keep their order if and only if each class of them reads the same backwards |
| MergeTies.OrderMatters | clientlog/processes.c:205-212 | with two different tied rows in front of any others, exchanging these two changes the sorted table |
| MergeTies.CanonicalExact | clientlog/processes.c:197-224 | all orders of the same rows sort to one table if and only if any two different rows can be told apart |
| MergeSort.MergeHalves | clientlog/processes.c:199-218 | the three merge loops fill a fresh scratch array with the merge of the two halves |
| MergeSort.HelperSortBy | clientlog/processes.c:197-224 | the cells from start to end are sorted in place and no other cell changes |
| Processes.CompareMeansRank | clientlog/processes.c:168-195 | no comparator ever answers 0, and each answers "above" exactly when its ranking does |
| Processes.StricmpZero | clientlog/processes.c:169-171 | names compare as equal exactly when they differ in case only |
| Processes.StricmpAlphabetical | clientlog/processes.c:169 | a name is less than another exactly when, in small letters, it comes before it in a dictionary |
| Processes.LowerLetters | clientlog/processes.c:169 | each letter of the alphabet is lowered to its small form |
| Processes.RankIsOrder | clientlog/processes.c:168-195 | each ranking is a strict order, total up to rows with the same name (ignoring case) and PID |
| Processes.RankedInOrder | clientlog/processes.c:168-195 | a table is ranked if and only if of any two rows the upper has more CPU, or more memory, where that is the order; else comes first in the alphabet; else has the higher PID |
| Processes.TableCanonical | clientlog/processes.c:240-271 | rows with distinct names and PIDs have one table per ranking, whatever order the previous sort left |
| Processes.TableCanonicalExact | clientlog/processes.c:226-238 | for each of the three comparators a table has one order if and only if it ranks any two different rows |
| Processes.TiesKeptExact | clientlog/processes.c:226-238 | for each of the three comparators, a sort turns rows with the same name and PID round, and so keeps their order if and only if each class of them reads the same backwards |
| Processes.SortRanks | clientlog/processes.c:226-238 | sorting ranks the rows by the comparator in use and keeps every one |
| Processes.SortBy | clientlog/processes.c:226-238 | the rows are copied over in the order of the sorted pointers, and then stand in the order a reader expects, every one of them |
| Processes.AppendTable | clientlog/processes.c:146-166 | exactly the first min(N, number of non-idle rows) non-idle rows are shown, although the loop raises its own bound |
| Processes.NonIdleKeepsOrder | clientlog/processes.c:154-158 | the non-idle rows stay in order and are all there |
| Processes.ShownAreTheTop | clientlog/processes.c:260-269 | after a sort no row left out ranks above a row shown, and shown and left out together are all the real processes |
| Processes.EndAppendQuery | clientlog/processes.c:248-270 | the three tables are all rows in alphabetical order of their names, the top twenty with the most CPU first, and the top twenty with the most memory first, each independent of the order the sort before it left |
| IPv6.GroupsInjective | clientlog/winports.c:38-43 | the eight groups, taken from byte 15 down to byte 0, determine the sixteen bytes |
| IPv6.FindLargestZeroCluster | clientlog/winports.c:45-64 | the scan finds the leftmost of the longest runs of zero groups, or 8 when there is none |
| IPv6.LeftmostLongestUnique | clientlog/winports.c:45-64 | there is only one such run |
| IPv6.PrintGroups | clientlog/winports.c:68-80 | a loop over groups prints them in hexadecimal with a colon between any two |
| IPv6.PrettyIPv6 | clientlog/winports.c:37-83 | the text has "::" in place of the leftmost longest zero run, and is at most 41 characters long |
| IPv6.ReadsBack | clientlog/winports.c:66-82 | the independent reader gives back the groups from the text, for every address |
| IPv6.JoinHasNoDouble | clientlog/winports.c:68-80 | joined groups never contain two colons together |
| IPv6Forms.NoLeadingZero | clientlog/winports.c:68-80 | no group has a leading zero, as section 4.1 of RFC 5952 asks for, and zero is one digit |
| IPv6Forms.DigitIs | clientlog/winports.c:68-80 | the digits are those from 0 to 9 and small a to f, as section 4.3 asks for |
| IPv6.PrettyInjective | clientlog/winports.c:37-83 | different addresses have different texts |
| IPv6Forms.OneDouble | clientlog/winports.c:66-82 | the text contains "::" once, where the zero run is left out, and never when there is none |
| IPv6Forms.TextUnique | clientlog/winports.c:66-82 | the text determines which groups were left out |
| IPv6Forms.ShortensOneExact | clientlog/winports.c:45-82 | a single group is left out if and only if some group is zero and no two neighbouring ones are |
| IPv6Forms.ShortenedExample | clientlog/winports.c:37-83 | 2001:db8:0:1:1:1:1:1 is printed as [2001:db8::1:1:1:1:1] |
| Connections.Conservation | clientlog/winports.c:191-236 | rows shown, rows counted in summaries and the overflow count add up to the number of entries, for every table |
| Connections.IsRunExact | clientlog/winports.c:204-214 | rows are a run if and only if they all have one address and one PID and the rows around them do not |
| Connections.HeadShows | clientlog/winports.c:215-227 | each line shows the address, port and PID of its own row, and of a TCP row the other end and the state too |
| Connections.RunIsCut | clientlog/winports.c:198-231 | a maximal run of one address and PID is written as its first twenty rows, and one summary of the rest exactly when it is longer |
| Connections.TwentyRowsExact | clientlog/winports.c:192-213 | the promise of twenty rows holds of a first run exactly when it does not look like the zeroed record or is too short to be cut |
| Connections.SummaryPortExact | clientlog/winports.c:198-231 | the summary of a run shows its highest local port, as it says, exactly when no row of the run has a higher port than the row it is taken from: the last one, or the one before it when the table ends there |
| Connections.SortedPortExact | clientlog/winports.c:198-231 | in a run in order of its ports, exactly when another run follows or the last two ports are equal |
| Connections.SummaryPortExample | clientlog/winports.c:229-231 | twenty-one sockets of one process on ports 1 to 21 are summarised with port 20 |
| Connections.UnsortedPortExample | clientlog/winports.c:209-211 | twenty-one UDP sockets on ports 21 down to 1, which the table need not have in order, are summarised with port 1 |
| Connections.PtrSwap | clientlog/winports.c:183-189 | the XOR swap exchanges two pointers |
| Connections.Pair.Load | clientlog/winports.c:202-204 | after each swap the two pointers still point at two different records: the new row and the one before it |
| Connections.Step | clientlog/winports.c:202-228 | one row writes its line, the summary of a run that has just ended, or nothing, and keeps the counters in step |
| Connections.AppendRows | clientlog/winports.c:191-231 | the loop with two records writes exactly what the runs of the table call for |
| Connections.AppendConnections | clientlog/winports.c:191-236 | at most 5000 rows are looked at and the rest is counted |
| Alignment.MaskClearsLow | clientlog/arena.c:21 | masking with the two's complement of a power of two clears exactly the bits below it |
| Alignment.MaskDown | clientlog/arena.c:20-21 | the mask rounds an address down to a multiple of the alignment |
| Alignment.RoundedDownIsHighest | clientlog/arena.c:20-21 | no higher multiple lies at or below the address |
| Arena.OutputIsConcat | clientlog/arena.c:31-43 | the output is the concatenation of the appended texts if and only if each was shorter than the free space it met |
| Arena.AddBlock | clientlog/arena.c:20-28 | a block below the innermost end is disjoint from all live blocks and between the output and the end of memory |
| Arena.DropFrame | clientlog/arena.h:31-34 | when a copy of the arena is dropped, the blocks of the other copies stay live and disjoint |
| Arena.PlacedOneWay | clientlog/arena.c:13-25 | where a block goes, or that there is no place for it, is determined by the free space, its size and its alignment |
| Arena.NoPlace | clientlog/arena.c:22-25 | when the rounded address is below the output, no aligned place has room |
| Arena.PrintedPrefix | clientlog/arena.c:36-42 | printing into the free space changes nothing beyond it or before it |
| Arena.ArenaState.Call | clientlog/arena.h:31-34 | a called function starts with its caller's end |
| Arena.ArenaState.Return | clientlog/arena.h:31-34 | returning frees exactly the allocations of the copy that goes, and keeps the output |
| Arena.ArenaState.Allocate | clientlog/arena.c:12-29 | an allocation is at the highest aligned place that has room, zeroed, apart from all others, and moves the innermost end only; it throws exactly when there is no place |
| Arena.ArenaState.Append | clientlog/arena.c:31-43 | an append throws exactly when its text is longer than the free space, otherwise extends the output, and never changes a live allocation |
| Arena.ArenaState.Print | clientlog/arena.c:36 | as much of the text as fits before a NUL, and nothing outside the room |
| Arena.ArenaState.Poke | clientlog/arena.c:27-28 | writing to a live block never changes the output; it decides whether the output is still followed by a NUL exactly when the block begins right after it |
| Arena.ArenaState.constructor | clientlog/arena.c:45-57 | a new arena is empty, with the end of its memory as its end |
| Defer.RestsOnTheUnion | clientlog/arena.c:71-87 | the function registered is the one a later pop calls; with pointers that did not share storage this would hold exactly when the kind stays or the slot held the function already |
| Defer.DeferStack.Defer | clientlog/arena.c:64-88 | registers a handle on top, or throws exactly when eight are held |
| Defer.DeferStack.IgnorePopDefer | clientlog/arena.c:90-95 | forgets the newest handle without closing it |
| Defer.DeferStack.PopDefer | clientlog/arena.c:97-117 | closes the newest handle with the function and kind it was registered with |
| Defer.DeferStack.PopDeferAll | clientlog/arena.c:119-124 | closes everything, newest first; every handle ever registered is held, closed once, or ignored |
| Script.PlaceOfIsPlaced | clientlog/arena.c:12-29 | the place computed by rounding down is the highest aligned one with room, or there is none |
| Script.SpaceIsOrdered | clientlog/arena.c:12-43 | after any operations the output ends before the innermost end, the ends are in order, and all are within the memory |
| Script.PiecesAreTexts | clientlog/arena.c:31-43 | the pieces a run has appended are the texts of its script |
| Script.HandlesAccounted | clientlog/arena.c:64-124 | of the handles the operations register, each is held, closed or ignored: once |
| Script.ThrowsExact | clientlog/arena.c:12-69 | code 1 is thrown exactly for an allocation without a place and for a text longer than the room, code 2 exactly for a ninth handle |
| Script.ByteIsLastWrite | clientlog/arena.c:12-43 | a byte of the memory is what the last operation to write to it put there: an append its text or the NUL behind, an allocation a zero, the owner of a block any character |
| Script.EndsInNulExact | clientlog/arena.c:22-28 | after any operations, the output is followed by a NUL exactly when there is a byte after it, and the last write to that byte, which may have been that of the owner of a block there, was one |
| Script.MessageExact | clientlog/clientlog.c:95-96 | what is sent is the texts exactly when each met more room than it needed and a NUL follows the output |
| Script.ErrorMessageExact | clientlog/clientlog.c:17-23 | after a throw there is a message exactly when the output is longer than the format of the error text; it is the texts without their end, and the error text, exactly when each text that ends in what is kept met more room than it needed |
| Clientlog.AllocatedAsPlaced | clientlog/arena.c:12-29 | the allocation of the class is the one computed on values, byte for byte |
| Clientlog.StepArena | clientlog/arena.c:12-43 | an operation on memory throws code 1 exactly when an allocation has no place or a text is longer than the room; otherwise it leaves the computed layout and bytes, and when it throws, the output stays |
| Clientlog.StepHandles | clientlog/arena.c:64-124 | an operation on handles throws code 2 exactly when a ninth is registered, and otherwise leaves the computed stack |
| Clientlog.Run | clientlog/clientlog.c:33-93 | the sections run in order until the end, or exactly the first operation that throws, with its code |
| Clientlog.PutErrorText | clientlog/clientlog.c:19-20 | the error text is written over the last characters of the output |
| Clientlog.ErrorInMemory | clientlog/clientlog.c:17-23 | up to its first NUL the memory then holds the output without its end, and the error text |
| Clientlog.SendOutput | clientlog/clientlog.c:95-96 | what is sent at the end is the memory up to its first NUL |
| Clientlog.SendError | clientlog/clientlog.c:17-23 | the same after a throw, with the error text in place of the end |
| Clientlog.Clientlog | clientlog/clientlog.c:10-103 | for every script, the run stops at the first operation that throws; what is sent is what was appended exactly under the conditions above; and the handles registered up to there are closed in the order the stack gives, each once unless it was ignored, with none left |
| Clientlog.ThrowBeforeOutput | clientlog/clientlog.c:19-20 | when the very first allocation throws, there is no output to put the error text into |
| Clientlog.OverwrittenEnd | clientlog/arena.c:20-28 | a block that begins right after the output, and a write to it, make the run send more than was appended |
| Clientlog.ExactFill | clientlog/arena.c:36-42 | a text as long as the memory does not throw, and is sent without its last character |
| ConfigText.BufferIsOwnText | cfg.c:29-44 | keys do not interfere: a buffer holds as much as fits of the lines added to its own key |
| ConfigText.LinesReadBack | cfg.c:46-85 | newline-free lines read back as they were added |
| ConfigText.CutReadsBackPrefix | cfg.c:29-85 | a text cut by the buffer reads back as exactly the longest prefix of its lines that fits, no line cut and none after it |
| ConfigText.ReadableLines | cfg.c:29-85 | after any additions of newline-free lines a key yields the longest prefix of its lines whose total fits in 31999 characters |
| ConfigStore.Store.Find | cfg.c:34 | the search finds the entry of a key, or there is none |
| ConfigStore.Store.AddCfg | cfg.c:29-44 | one line is appended to the buffer of its key, which is created when new, and no other key changes |
| ConfigStore.Store.Append | cfg.c:43 | the bounded append of the line and its newline to the buffer of one entry |
| ConfigStore.Store.ClearCfg | cfg.c:14-27 | no key is left |
| ConfigStore.Store.GetCfg | cfg.c:46-85 | line i of a key is given cut to the caller's buffer, with result 2 exactly when it was shortened, 1 when not, and 0 when there is no such line |
| ConfigStore.Store.PickLine | cfg.c:61-83 | the scan for newlines stops at line i of the text or at its end |
| ConfigStore.Store.AllLines | mrbig.c:493 | the loop that reads a key line by line gets all its lines, in order, each cut to its buffer |
| ConfigReader.ChunksAreLines | cfg.c:243 | reading through a bounded buffer gives the lines of the file if and only if each fits |
| ConfigReader.ChunksLoseNothing | cfg.c:243 | a longer line comes in pieces: together they are the file, and each ends with its newline, fills the buffer, or is the last |
| ConfigReader.ChompKeepsLine | cfg.c:87-93 | a line comes out as it is, whether it ends with a newline, with carriage return and newline, or not |
| ConfigReader.ParseForms | cfg.c:245-265 | each form of line is recognised for what it is: sections up to the bracket, includes with the file name as it stands, comments, empty lines, and everything else as a setting |
| ConfigReader.RanksDoNotMatter | cfg.c:231-268 | the settings a file amounts to do not depend on how the include graph is shown to be acyclic |
| ConfigReader.OwnLinesKeepCategory | cfg.c:241-266 | a line of the file itself is stored in the category its own file put it in: a section opened by an included file does not leak back |
| ConfigReader.SettingsHaveNoNewline | cfg.c:87-93 | no stored line contains a newline |
| ConfigReader.ReadCfg | cfg.c:231-268 | the store is what adding the flattened settings in order gives; a missing file adds nothing |
| ConfigReader.ReadLines | cfg.c:243-266 | the loop over the lines of one file adds the settings of the file, those of included files in their place |
| ConfigReader.ReadLine | cfg.c:244-265 | one line opens a section, includes a file in the current category, adds a setting, or does nothing |
| ConfigReader.ReadableSettings | cfg.c:29-268 | of each key, what can be read after reading a file is the longest fitting prefix of its flattened settings |
| ConfigReader.Reload | mrbig.c:1009-1060 | clearing the store, reading the configuration and reading a key's lines gives exactly that prefix, each line cut to the caller's buffer |
| ConfigFiles.RenderedReads | cfg.c:245-265 | a section, setting, include, fetch, bind, comment or empty line that somebody writes is taken for what it is |
| ConfigFiles.SettingsListed | cfg.c:231-268 | files written line by line amount to the list of categories and lines one reads off them: a section holds for the settings behind it, and an included file's come in the place of the include, in its category |
| ConfigFiles.ReloadWritten | mrbig.c:1009-1060 | of each key, a test reads the settings that were written under it, in order, as many as fit |
| LittleEndian.BytesReadBack | readperf.c:178-193 | the bytes of a number read as that number |
| LittleEndian.ZeroExtended | readperf.c:187-192 | zero bytes above the others do not change a value |
| PerfLayout.EncodeDescribes | readperf.c:26-61 | an encoded list of objects lies in memory as the walker expects it |
| PerfLayout.ObjectEncoded | readperf.c:36-54 | so does one object with its counters and instances, or its single block |
| PerfLayout.BlobOneWay | readperf.c:26-61 | bytes hold the objects of one list at most, so that encoding is injective |
| PerfLayout.PositionsAreAll | readperf.c:63-89 | the positions of the counters with a title are all of them, in order |
| PerfLayout.ValueIs | readperf.c:186-192 | when the bytes of a counter in a block are those of a number, all of them, that number is the value |
| PerfLayout.RequestedIs | readperf.c:63-89 | an even number asks for the first counter with that title, and the odd number above it for the second or, without one, for nothing |
| PerfLayout.NoneRequested | readperf.c:63-89 | a number that is no counter's title asks for nothing |
| PerfReader.GetObject | readperf.c:91-106 | finds the first object with the title, or there is none |
| PerfReader.GetCounterOffset | readperf.c:63-89 | finds the first counter with an even title, and for an odd number the second one with the even title below it; fails exactly when there is none |
| PerfReader.ReadValue | readperf.c:186-192 | a value is the zero-extended little-endian number in its bytes |
| PerfReader.DupWide | readperf.c:202-205 | a name is read up to its zero character |
| PerfReader.FillCounters | readperf.c:175-178 | the slot of every requested counter that is there is set, and that of any other is not |
| PerfReader.ReadValues | readperf.c:186-192 | the values of a block are read in order, unless a slot that was not set is met: exactly when some requested counter is not there |
| PerfReader.ReadSingle | readperf.c:180-193 | an object without instances gives one element without a name, exactly when every requested counter is there |
| PerfReader.ReadInstances | readperf.c:196-217 | every instance is given in order with its name and the value of every requested counter, and an element without a name ends them, exactly when every requested counter is there or there are no instances |
| PerfReader.ReadPerfCounters | readperf.c:116-223 | the whole walk, for any data that hold a list of objects: nothing exactly when the object is not there; a slot that was never set is read exactly when some requested counter is not there and there is a block to read; and otherwise each row has the name of its instance and, in the place of each counter, the number v whose bytes the block holds for it |
| PerfReader.ReadEncoded | readperf.c:116-223 | reading what was encoded gives the objects back, with every number v of up to eight bytes that a block was given for a requested counter |
| PerfReader.ReadMissing | readperf.c:175-193 | an object with one counter, asked for another one too, makes the walk read a slot that was never set |
| MemberText.SplitJoins | disphelper.c:455-480 | splitting a member string at its dots loses nothing |
| MemberText.PartsJoin | disphelper.c:455-480 | one dot in front of a member is skipped, and nothing else of it |
| MemberText.JoinedReads | disphelper.c:455-480 | parts without dots that were joined with dots are the parts that are called |
| MemberText.NameReads | disphelper.c:525-536 | a name ends at the first bracket, blank, equals sign or percent mark |
| MemberText.KnownIds | disphelper.c:562-671 | seventeen identifiers are known: three for strings, one for an omitted argument that takes no value, and the others for values passed on |
| MemberText.PosAtCounts | disphelper.c:546 | the arguments of a part begin behind one value for each argument of the parts before it that is not an omitted one |
| MemberText.ArgumentAt | disphelper.c:525-549 | the argument marked k-th is the k-th from the end of what the object gets, and is read from the list behind one value for each argument marked before it that is not an omitted one |
| MemberText.WrittenReadsBack | disphelper.c:525-549 | a member written with its arguments marked in parentheses gives back its name and its identifiers |
| Invoker.ExtractArgument | disphelper.c:562-671 | an argument is read unless its identifier is unknown or its allocation or conversion is refused; a string is allocated exactly for the text identifiers, and none is left when it fails |
| Invoker.ClearFrom | disphelper.c:502-504 | every string of the given slots is cleared once |
| Invoker.GatheredNext | disphelper.c:537-545 | the k-th argument read is in the k-th slot from the end |
| Invoker.NextId | disphelper.c:531-546 | a 26th argument or an unknown identifier makes the member unacceptable |
| Invoker.Placeholder | disphelper.c:531-546 | one '%' and its identifier fill the next slot down, or the scan gives up with the slots above still to be cleared |
| Invoker.CreateArgumentArray | disphelper.c:516-560 | succeeds exactly when all identifiers are known, there are at most 25, and nothing is refused; then the name is cut off and the arguments occupy the last slots in reverse reading order; after a failure no string stays allocated |
| InvokePath.InternalInvokeV | disphelper.c:487-514 | one call with the arguments of its part; no argument string stays allocated, and a result that cannot be converted is given back |
| InvokePath.ConvertResult | disphelper.c:506-510 | a result is converted to the wanted type or given back |
| InvokePath.Step | disphelper.c:464-479 | the reference to an object is exchanged for one to the object it returns; success without an object counts as failure |
| InvokePath.PathNext | disphelper.c:463-480 | calls stay a path: each is made on the object the one before it returned |
| InvokePath.TraverseSubObjects | disphelper.c:446-485 | all parts but the last are called in order, every intermediate reference is given back on success and on failure, and only that to the object reached is kept |
| InvokePath.CopyMember | disphelper.c:429-431 | a member string of 512 characters or more is refused |
| InvokePath.InvokeV | disphelper.c:417-444 | for every member string, argument list and pattern of failures the caller's references are as before, every intermediate object is released once, no argument string stays allocated, and success means that every part was called and the last gave the result |
| Query.CallsAreNamed | disphelper.c:417-485 | of a path of names with their arguments in parentheses, written with a dot in front, the k-th call made is that of the k-th name, with the arguments its identifiers mark |
| Query.OnlyCall | disphelper.c:417-485 | with one name, it is the only call made, on the object itself, and none is made only when an argument is refused or there are too many |
| Query.ExecQuery | wmi.c:129 | the query is one call of ExecQuery on the service with the query's text |
| FileTime.FoldIsTheDateOf | disphelper.c:791 | the folded date is the one that stands for the instant: whole days, and a fraction that counts forward also before day 0 |
| FileTime.UnfoldThenFold | disphelper.c:791-803 | a date comes back if and only if it is not strictly between -1 and 0 |
| FileTime.RoundTrip | disphelper.c:782-812 | a file time is accepted exactly when 500 more, in 64 bits, is below the limit, and there and back gives those ticks |
| FileTime.PlusFiveHundred | disphelper.c:782-812 | the round trip returns the original plus exactly 500 ticks if and only if the file time is more than 500 below the limit, dates before day 0 included |
| FileTime.AcceptedDates | disphelper.c:803-806 | a date is refused exactly when it is a whole day or more before the first file time |
| FileTime.TicksOfInstant | disphelper.c:803-807 | the ticks are those of the instant rounded down, and later instants never get fewer |
| FileTime.ConstantsAreDates | disphelper.c:764-770 | by the Gregorian calendar, the constants are a day, the days from the first file time to 1899-12-30, and the end of the year 9999 |
| Applications.StrncmpZero | clientlog/applications.c:43 | names compare as equal exactly when their first 64 characters are the same |
| Applications.StrncmpAlphabetical | clientlog/applications.c:43 | a name is less than another exactly when what is looked at of it comes before in a dictionary |
| Applications.SortedInOrder | clientlog/applications.c:43-44 | rows are sorted if and only if names are in alphabetical order, and of one name the 32-bit applications come first |
| Applications.PrettyReads | clientlog/applications.c:32-35 | the four columns of a row are read back at its tabs |
| Applications.InsertSplices | clientlog/applications.c:38-63 | every insertion, of a duplicate too, adds one row between neighbours that allow it |
| Applications.TraversalIsListing | clientlog/applications.c:38-74 | the traversal is in alphabetical order of the names, 32-bit applications first, and holds everything inserted as often as it was |
| Applications.OrderDoesNotMatter | clientlog/applications.c:38-74 | when no two different applications share a key, the traversal does not depend on the order of insertion |
| Applications.TreeInsert | clientlog/applications.c:38-63 | the pointer tree stays acyclic and takes the shape of the insertion, with the new node added |
| Applications.TreeTraverseAppend | clientlog/applications.c:65-74 | the rows are appended in the order of the traversal |
| Applications.PrintApplications | clientlog/applications.c:137-150 | the section lists the applications of both architectures, every one, in that order, or says that there are none |
| ApplicationTies.KeepsOrderExact | clientlog/applications.c:38-63 | in every sorted tree, a new application comes out behind all those with its key if and only if it never takes the free left child of one of them |
| ApplicationTies.StableExact | clientlog/applications.c:38-63 | when every insertion of a run does so, applications with one key are listed in the order of insertion; and when no two are the same in every field, only then |
| ApplicationTies.DuplicatesAreReordered | clientlog/applications.c:49-55 | of three with one key, and nothing else in the tree, the second comes out before the first and the third after it |
| ApplicationTies.OrderKeptBehind | clientlog/applications.c:49-55 | with an application before it in the tree, the second of two with one key stays behind the first |
| Kbs.InsertSplices | clientlog/kbs.c:39-51 | a number is ignored exactly when it is there, and otherwise put between a smaller and a larger one |
| Kbs.TraversalIsTheSet | clientlog/kbs.c:39-58 | the traversal is strictly increasing and holds exactly the inserted numbers |
| Kbs.OrderDoesNotMatter | clientlog/kbs.c:39-58 | the list depends on the set of numbers only |
| Kbs.InsertKB | clientlog/kbs.c:39-51 | the pointer tree stays acyclic and takes the shape of the insertion |
| Kbs.AppendKBs | clientlog/kbs.c:53-58 | the numbers are appended in the order of the traversal |
| Kbs.PrintKBs | clientlog/kbs.c:60-166 | the section lists every non-zero number read from the titles once, in increasing order, or says that there are none, as when a call before the loop failed, or that COM could not be initialised |
| SearchTree.TreeNode.SetLeft | clientlog/kbs.c:39-51 | hanging a tree below a node that shares no node with it gives a tree |

## Left out

- Win32, COM, registry, event log, PDH and certificate calls: their results are parameters or nondeterministic.
- Socket set-up and shutdown in detail, `select`, `recv_cfg`, and the effect of `.bind`: a display is set up or not, and a `.config` fetch reads another named file, which `isFetch` says is fetched.
- `service.c`, `wmi.c`, `minibbd.c`, `minicfg.c`, `cpu.c`, `memory.c`, `disk.c`, `ext_test.c`, `msgs.c`, `procs.c`, `svcs.c`, `osversion.c`, `strlcpy.c` and the other sections of the client log: thin wrappers or simple thresholds.
- The crash handler, debug logging, the memory and file debugging tables, and the exception record of `disphelper.c`.
- `kbs_ExtractKBNumber`, `clog_utils_PrettyBytes`, and the layout of printed rows: rows are written as values, and numbers in the KB list through a given printing function.
- Time, sizes and counts are unbounded integers except where a wrap-around is written out: `count * size` in the arena, the bound that the process table raises, `sleeptime*1000`, and DWORD counters do not wrap.
- Processes.Stricmp: `_stricmp` is a three-way comparison that gives -1, 0 or 1, so that the narrowing of a larger result to INT8 is not modelled; CPU times are exact reals without NaN.
- MergeSort.HelperSortBy: the array holds rows where the source has pointers to rows.
- Delivery.SendUpdate: the displays are a sequence where the source has a linked list that is not changed here.
- ConfigStore.Store.AddCfg: the list of keys is a sequence where the source has a linked list.
- ConfigReader.ReadCfg: files contain no NUL characters, since `fgets` marks the end of what it read with one; include graphs have no cycle, since on one the source goes on until no more files can be opened, and what it adds depends on that limit of the system.
- Applications.PrintApplications: the registry loop that finds the applications is their sequence, and the row buffer of `applications_PrettyApplication` is never too short for clamped names.
- ApplicationTies.StableExact: applications that are the same in every field cannot be told apart in a listing, so the condition is exact when there are none; for a single insertion it is exact always.
- Kbs.PrintKBs: inside the loop the results of `get_Item` and `get_Title` are never assigned to `status`, so the source does not notice when they fail; what it then reads is not modelled.
- Clientlog.Clientlog: sections are scripts of operations on the arena and the handles; what they write into their own allocations is one of these operations; locals changed between `setjmp` and `longjmp` are not modelled.
- PerfLayout.EncodeDescribes: the offsets of the fields are those of the Windows header winperf.h, which is not part of this repository.
- PerfReader.ReadPerfCounters: the growing buffer of the registry call is not modelled; what a copy with a size and an offset that were never set does is left open (`ReadsUnset`).
- PerfReader.DupWide: the conversion of a name to the code page, and its buffer of 1024 bytes, are not modelled.
- InvokePath.InvokeV: error codes are success or failure; argument values are a word or a text, without the checks of type that the C argument list does not make either.
- FileTime.ToVariantTime: null pointers and the rounding of doubles are not modelled.
