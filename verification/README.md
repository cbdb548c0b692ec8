# Verified models of RosaServer's stateful parts

RosaServer is a C++ server with Lua scripting. This project models, in Dafny 4.11, the parts of it that are
algorithms or protocols over mutable state, and proves what they keep over every run. `dafny verify
dfyconfig.toml` checks everything.

**Path search** (`Graphs`, `BestFirst`, `SearchTheorems`, `SearchOptimality`, `ShortestRoutes`, `OpenSet`,
`PointGraph`). `findShortestPath` orders its queue by `gScores` and fills its maps with `insert`, which never
overwrites. So a node's score and predecessor are fixed by the first examined link that enters it. `BestFirst` states
just this, about the order in which nodes are settled and with no maps or queue. `PointGraph` has the loops over maps
and a binary heap, and proves that their answer is the one of a settle order (`Answers`), for costs of either sign.
`SearchTheorems`, `SearchOptimality` and `ShortestRoutes` prove what such an answer is worth. The comments in the
source call a score "the cost of the cheapest path currently known"; the code keeps the first one found, and the model
follows the code. Hence the route is not always shortest: a direct link to the goal is always taken
(`DirectLinkIsTaken`), on the triangle of `DirectLinkWins` at any price. `AlwaysShortestIffFirstLinksAre` says on
exactly which graphs the search returns a shortest route to every goal, in terms of the graph alone: each link that
can be the first to discover its target must end a shortest walk. Of a single run,
`ScoresAreDistancesIffNothingDiscarded` says exactly when all its scores are distances and
`RouteIsShortestIffNoDiscardHurts` exactly when its route is shortest. On all other graphs
`RouteBeatsEveryRepricedWalk` says how far off a route can be.

**Console** (`Terminal`, `Keys`, `LineEditor`, `Console`, `EditorTheorems`, `EditorKeys`). The line editor paints the
terminal row with single characters and backspaces. `LineEditor.Press` says what a key does to the line and to the
cells right of it (`tail`); each handler of `Console`, with its loops of output, is proved to do exactly that, and the
loop over bytes with its one-code push-back is proved to act on the keys a pure decoder finds. `EditorTheorems` is
about whole runs: when painting agrees with a full redraw, what the history holds, what happens to drafts.
`EditorKeys` pins down what each key does to the line by how keys undo one another and by what comes of typing,
browsing and submitting.

**Two threads** (`AutoComplete`, `CommandQueue`, `Liveness`, `Interleavings`). The locked blocks of the console thread
and the main thread as steps that interleave freely: submitting and taking commands, asking for and giving
completions. `Liveness` says what every schedule gets done, `Interleavings` what can be told of the state from the
steps alone.

**Worker channels** (`Worker`). Two bounded queues; a run is any interleaving of both threads' operations, and the
queues are always those of the two channels run separately.

**Data tables** (`DataTables`, `TableTheorems`, `TableArrays`). Allocation, deletion and sweeping of the Lua tables in
six arrays. Hooks and engine calls may do anything in between, including nested creations and deletions, so operations
are trees.

**Images and pipes** (`Image`, `Pipe`). Pixel addressing in 32-bit unsigned arithmetic, and the length-prefixed frames
between server and satellite.

Ties between equal scores, what the engine allocates, what Lua hooks do, the answer to a completion, the bytes read and
the order of the threads' steps are parameters, so each statement holds for all of them.

## Model

| member | source | states |
|---|---|---|
| PointGraphs.PointGraph.AddNode | RosaServer/pointgraph.cpp:20-24 | a node without links is appended, and the point index stays right (least id per point) |
| PointGraphs.PointGraph.AddLink | RosaServer/pointgraph.cpp:31-37 | a link is refused, changing nothing, iff an end is no node; otherwise it is appended to its node, so link targets stay valid |
| PointGraphs.PointGraph.GetNodeByPoint | RosaServer/pointgraph.cpp:39-49 | agrees with a linear scan: the least id with the point, nothing iff no node has it |
| PointGraphs.ReconstructPath | RosaServer/pointgraph.cpp:76-90 | following predecessors ends, and lists the route by which the node was first discovered |
| OpenSets.OpenSet.Push | RosaServer/pointgraph.cpp:105-115 | the heap under the live scores gains one id |
| OpenSets.OpenSet.Pop | RosaServer/pointgraph.cpp:105-137 | the top leaves the heap, everything else stays queued |
| OpenSets.TopIsLeast | RosaServer/pointgraph.cpp:105-132 | no queued id scores less than the top |
| OpenSets.HeapSurvivesInserts | RosaServer/pointgraph.cpp:105-107 | a comparator reading the live map is sound because the map only gains entries |
| PointGraphs.PointGraph.ExamineLinks | RosaServer/pointgraph.cpp:145-160 | examining a node's links keeps maps, heap and trace in step, with at most one push per link |
| PointGraphs.StepWithPush | RosaServer/pointgraph.cpp:147-159 | one link that beats the recorded score: what the three inserts and the push leave |
| PointGraphs.StepWithoutPush | RosaServer/pointgraph.cpp:147-149 | any other link leaves scores, predecessors and queue as they are |
| PointGraphs.PointGraph.FindShortestPath | RosaServer/pointgraph.cpp:93-164 | for costs of either sign, terminates with the answer of some settle order; pushes at most 1 + number of links; with costs >= 0 always returns, within the re-priced cost of every walk; a reconstruction that never ends is recognised as such |
| PointGraphs.AnswerIsSoundAndComplete | RosaServer/pointgraph.cpp:93-164 | no path is reported iff the goal is unreachable; a list is a repeat-free path from start to goal whose link costs add up to the goal's score; a search that never returns has a negative closed walk through the start |
| PointGraphs.NoWayOut | RosaServer/pointgraph.cpp:80-88 | once the start has a predecessor, every chain of predecessors goes on for ever |
| BestFirst.FoundStaysFixed | RosaServer/pointgraph.cpp:151-153 | write-once: nothing examined later changes a discovered node's route or score |
| BestFirst.FirstHopDecides | RosaServer/pointgraph.cpp:147-153 | the first link into a node fixes its predecessor and score |
| BestFirst.SettledTraceIsGrounded | RosaServer/pointgraph.cpp:131-160 | every examined link leaves a node discovered before |
| BestFirst.SettledOnce | RosaServer/pointgraph.cpp:139-143 | duplicates in the queue never settle a node twice |
| SearchTheorems.RouteIsWalk | RosaServer/pointgraph.cpp:76-90 | a recorded route consists of links of the graph |
| SearchTheorems.RouteIsSimple | RosaServer/pointgraph.cpp:76-90 | predecessors form a tree rooted at the start: a route repeats no node |
| SearchTheorems.ExhaustedMeansAllReached | RosaServer/pointgraph.cpp:131-163 | when the queue runs empty the settled nodes are exactly the reachable ones |
| SearchTheorems.FoundIsReachable | RosaServer/pointgraph.cpp:146-158 | whatever is discovered is reachable by its recorded route |
| SearchTheorems.PendingScoresMore | RosaServer/pointgraph.cpp:131-160 | with costs >= 0 nothing still queued scores less than a settled node |
| SearchTheorems.SettledInScoreOrder | RosaServer/pointgraph.cpp:131-160 | with costs >= 0 nodes are settled in non-decreasing score order |
| SearchTheorems.ExaminedHopBound | RosaServer/pointgraph.cpp:146-158 | the target of an examined link scores at most its source plus the dearest link into the target |
| SearchTheorems.RouteBeatsEveryRepricedWalk | RosaServer/pointgraph.cpp:131-161 | with costs >= 0 the route costs at most every start-to-goal walk re-priced to the dearest link into each node |
| SearchTheorems.RouteWithinSpreadOfEveryWalk | RosaServer/pointgraph.cpp:131-161 | hence at most the walk's cost plus its length times (largest - smallest cost) |
| SearchTheorems.TargetPricedRouteIsShortest | RosaServer/pointgraph.cpp:146-158 | where cost depends only on the link's target the route is a shortest path |
| SearchOptimality.ScoresAreDistancesIffNothingDiscarded | RosaServer/pointgraph.cpp:147-158 | scores are least costs over the examined links exactly when no improvement met an already scored node, for costs of either sign |
| SearchOptimality.ExhaustedCoversEveryWalk | RosaServer/pointgraph.cpp:131-163 | after an exhausted search that covers every walk from the start |
| SearchOptimality.TargetPricedDiscardsNothing | RosaServer/pointgraph.cpp:146-158 | where cost depends only on the link's target no improvement is ever discarded by the write-once inserts, and every score is a distance |
| ShortestRoutes.AlwaysShortestIffFirstLinksAre | RosaServer/pointgraph.cpp:131-158 | with costs >= 0, exactly the graphs on which the route to every goal is shortest however ties fall, told from the graph alone: those where each link that can be the first to discover its target ends a shortest walk |
| ShortestRoutes.FirstLinksSuffice | RosaServer/pointgraph.cpp:131-158 | on these graphs every score ever recorded is a distance |
| ShortestRoutes.FirstLinkIsNeeded | RosaServer/pointgraph.cpp:131-158 | conversely, if every goal always gets a shortest route, each link that can be first ends a shortest walk: a run is built in which it is first |
| ShortestRoutes.ContactIsClosestWhenPositive | RosaServer/pointgraph.cpp:131-158 | where every link costs at least 1, the links that can be first are those leaving the nodes closest to the start among all that link to the target |
| ShortestRoutes.TargetPricedMeetsIt | RosaServer/pointgraph.cpp:146-158 | graphs where cost depends only on the link's target meet the condition |
| ShortestRoutes.TriangleMeetsItIff | RosaServer/pointgraph.cpp:146-158 | the triangle meets it exactly when its detour is no cheaper, so with 10, 1, 1 it does not |
| PointGraphs.AnswerIsShortest | RosaServer/pointgraph.cpp:93-164 | on these graphs a list that comes back is that of a shortest walk |
| SearchOptimality.RouteIsShortestIffNoDiscardHurts | RosaServer/pointgraph.cpp:131-158 | exactly when the route of one run is a shortest path: no improvement it discarded starts a walk to the goal that costs less |
| SearchOptimality.NothingDiscardedRouteIsShortest | RosaServer/pointgraph.cpp:131-158 | in particular when the run discarded no improvement at all; the exact condition is the row above |
| SearchOptimality.DirectLinkIsTaken | RosaServer/pointgraph.cpp:146-158 | on every graph with a link from start to goal the route is the first such link, whatever it costs |
| SearchOptimality.DirectLinkWins | RosaServer/pointgraph.cpp:146-158 | the instance of a triangle, where that is shortest iff the detour is no cheaper (not so for 10, 1, 1) |
| SearchTheorems.StartImprovedNeedsNegativeCycle | RosaServer/pointgraph.cpp:147-153 | the start gets a predecessor only through a closed walk of negative cost |
| PointGraphs.ReturnsIffCycleNotNegative | RosaServer/pointgraph.cpp:76-90 | on the graph with links 0 to 1, 1 to 0 and 1 to 2, the search from 0 to 2 never returns exactly when the first two costs add up to less than 0 |
| SearchTheorems.ScoreIsShortSum | RosaServer/pointgraph.cpp:147-152 | a score is a sum of at most (nodes - 1) link costs |
| SearchTheorems.ScoresAreExactInDouble | RosaServer/pointgraph.cpp:102-152 | with 32-bit costs and 2^22 nodes all scores and tentative scores are within 2^53, hence exact doubles |
| SearchTheorems.ExaminedAtMostTotal | RosaServer/pointgraph.cpp:145-146 | each link is examined at most once |
| SearchTheorems.AllSettledExaminesTotal | RosaServer/pointgraph.cpp:145-146 | and a search that settles every node examines them all |
| Graphs.MaxIntoIsMax | RosaServer/pointgraph.cpp:146-153 | the re-pricing used above is the largest cost of a link into the node |
| Keys.DecodeInParts | RosaServer/console.cpp:150-217 | decoding may be cut anywhere; at a sequence boundary the parts decode independently |
| Keys.DecodeEncode | RosaServer/console.cpp:159-379 | every key has a code sequence, and decoding a stream of these gives back the keys |
| Keys.UnfinishedIsShort | RosaServer/console.cpp:213-217 | only the beginning of an escape sequence ever waits for more input |
| Keys.PageKeysEndAtDigit | RosaServer/console.cpp:321-325 | page up and page down do nothing, and end at their digit: the tilde after it is typed into the line |
| Keys.ControlCodesIgnored | RosaServer/console.cpp:381-382 | a code below 0x20 other than Tab, Enter and Escape, and the end of the input, do nothing |
| Keys.MisfitIsReadAgain | RosaServer/console.cpp:333-377 | a code that does not go on with an escape sequence is read again on its own, at each of the places where a sequence can break off |
| Consoles.Console.ReadKey | RosaServer/console.cpp:150-157 | one turn of the loop reads one key at most, with no code used twice or lost through the push-back slot |
| Consoles.Console.ReadEscape | RosaServer/console.cpp:213-379 | an escape sequence is read to its end, or the first code that does not fit is pushed back into the empty slot |
| Consoles.Console.ReadBracket | RosaServer/console.cpp:216-374 | what follows the bracket, including `3~` and `4~`; page up and down end after one digit |
| Consoles.Console.ThreadMain | RosaServer/console.cpp:146-407 | on any byte stream, and whatever answers Tabs get, line, row, history and submitted commands are those of the decoded keys |
| Consoles.Console.RedrawLine | RosaServer/console.cpp:73-83 | prints prompt and buffer and goes back to the cursor; on a fresh row that is exactly what it then shows |
| Consoles.Console.Log | RosaServer/console.cpp:430-438 | the exact row after any line; it shows prompt, buffer and cursor again exactly when the line ends in the first column, and after a final newline is just a redrawn one, whatever it was before |
| Terminal.PlainColumn | RosaServer/hooks.cpp:199 | of the lines of printed characters that are logged without a newline only the empty one does so |
| Consoles.Console.PushCommand | RosaServer/console.cpp:139-144 | logs, and appends the command to the queue |
| Consoles.Console.OnNewLine | RosaServer/console.cpp:164-182 | a non-empty line is remembered, submitted and cleared |
| Consoles.Console.OnBackspace | RosaServer/console.cpp:184-210 | the incremental output leaves the row that shows the shortened line |
| Consoles.Console.OnChar | RosaServer/console.cpp:381-404 | the same for an inserted character |
| Consoles.Console.OnDelete | RosaServer/console.cpp:341-356 | the same for a deletion at the cursor |
| Consoles.Console.OnUp | RosaServer/console.cpp:220-249 | the older history line replaces the buffer; the draft is kept on leaving the edited line |
| Consoles.Console.OnDown | RosaServer/console.cpp:252-284 | the newer line, or the draft, replaces the buffer |
| Consoles.Console.OnRight | RosaServer/console.cpp:287-293 | moves the cursor by printing the character under it |
| Consoles.Console.OnLeft | RosaServer/console.cpp:296-302 | moves the cursor back |
| Consoles.Console.OnHome | RosaServer/console.cpp:305-309 | reprints the prompt, cursor at the start |
| Consoles.Console.OnEnd | RosaServer/console.cpp:311-319 | reprints prompt and buffer, cursor at the end |
| Consoles.Console.OnEndTilde | RosaServer/console.cpp:357-364 | prints the rest of the buffer, cursor at the end |
| Consoles.Console.BeginAutoComplete | RosaServer/console.cpp:121-126 | the snapshot asked about is the buffer |
| Consoles.Console.RespondToAutoComplete | RosaServer/console.cpp:98-119 | the answer replaces the line if one is awaited, otherwise nothing happens |
| Consoles.Console.DrainCommands | RosaServer/hooks.cpp:434-450 | the queue is emptied, the hook gets in submission order all commands but resets for which it is there at the time, and a reset is flagged iff one was queued |
| CommandQueue.DeliveredInParts | RosaServer/hooks.cpp:434-450 | draining in parts delivers what draining at once would |
| CommandQueue.DeliveredWhole | RosaServer/hooks.cpp:442-448 | with a hook for each and no reset among them all commands are delivered |
| CommandQueue.DeliveredAt | RosaServer/hooks.cpp:436-449 | each command is delivered in its place exactly if there is a hook when its turn comes and it is not `resetlua` |
| LineEditor.CharPaints | RosaServer/console.cpp:386-399 | one printed character, the rest and that many backspaces paint an insertion |
| LineEditor.BackspacePaints | RosaServer/console.cpp:189-208 | the same for backspace, at the end of the line and inside |
| LineEditor.DeletePaints | RosaServer/console.cpp:343-355 | the same for delete |
| LineEditor.ShowPaints | RosaServer/console.cpp:229-247 | erasing left of the cursor and printing a line leaves the uncovered rest of the old one standing |
| EditorTheorems.LooksRedrawnIffBlankTail | RosaServer/console.cpp:73-83 | the row looks redrawn exactly when all cells right of the buffer are blank |
| EditorTheorems.StepStaysCleanIff | RosaServer/console.cpp:98-404 | a key, log line or completion keeps it so exactly when it leaves nothing visible of a replaced line |
| EditorTheorems.CleanIffNothingLeft | RosaServer/console.cpp:98-404 | the runs on which incremental painting always agrees with a full redraw, exactly |
| EditorTheorems.HomeThenUpLeavesRemains | RosaServer/console.cpp:229-247 | a command, then a line typed, Home and Up: the row agrees with a redraw exactly when nothing visible of the line is longer than the command |
| EditorTheorems.RemainsOfAB | RosaServer/console.cpp:229-247 | an input for which it does not: x, Enter, a, b, Home, Up |
| EditorTheorems.CursorAtEndIsClean | RosaServer/console.cpp:220-284 | in particular all runs that replace lines only with the cursor at the end |
| EditorTheorems.HistoryRecallsCommands | RosaServer/console.cpp:164-182 | the history is the newest 512 submitted lines, newest first, without immediate repetitions |
| EditorTheorems.EnterThenUp | RosaServer/console.cpp:164-249 | a submitted line comes back on Up |
| EditorTheorems.DraftComesBack | RosaServer/console.cpp:220-284 | browsing up and at least as far down restores the original line, cursor at its end, whatever was edited in between |
| EditorTheorems.DraftIsLastLeft | RosaServer/console.cpp:220-225 | the draft is the line last left for the history, and is written at no other time |
| EditorTheorems.DownWithoutBrowsing | RosaServer/console.cpp:252-283 | a Down without browsing keeps the line exactly when it equals that old draft |
| EditorTheorems.DownLosesLine | RosaServer/console.cpp:252-283 | a run in which it does not: a command, then a line typed and Down empties the line |
| EditorTheorems.TypingInserts | RosaServer/console.cpp:381-404 | typing a line inserts it at the cursor, submits nothing and leaves history and draft alone |
| EditorKeys.BackspaceUndoesChar | RosaServer/console.cpp:184-210 | a Backspace after a character gives back text, cursor, history and draft |
| EditorKeys.CharUndoesBackspace | RosaServer/console.cpp:184-210 | Backspace takes away just the character left of the cursor: typing it again gives back the text |
| EditorKeys.CharUndoesDelete | RosaServer/console.cpp:341-356 | Delete takes away just the character at the cursor |
| EditorKeys.LeftDeleteUndoesChar | RosaServer/console.cpp:341-356 | a character, Left and Delete give back the text |
| EditorKeys.ErasingUndoesTyping | RosaServer/console.cpp:184-404 | typing a line and as many Backspaces gives back the text |
| EditorKeys.NothingBeyondTheEnds | RosaServer/console.cpp:184-356 | Backspace and Left at the start, Delete and Right at the end change nothing |
| EditorKeys.LeftAndRightUndoEachOther | RosaServer/console.cpp:287-302 | inside the line Left and Right move, and undo one another |
| EditorKeys.RightsFromHome | RosaServer/console.cpp:287-309 | Home and n Rights put the cursor at column n, or at the end |
| EditorKeys.LeftsFromEnd | RosaServer/console.cpp:296-364 | End, by either code, and n Lefts put it n before the end, or at the start |
| EditorKeys.BrowsingShows | RosaServer/console.cpp:220-284 | where Up and Down go in the history, with the clamps, and that the line come to is shown with the cursor at its end |
| EditorKeys.NthUpRecalls | RosaServer/console.cpp:164-249 | from an empty history, n Ups show the n-th newest submitted line, immediate repetitions left out |
| EditorKeys.CompletionReplaces | RosaServer/console.cpp:106-118 | an answer replaces the line, cursor at its end, and touches neither history nor draft |
| EditorKeys.LogRedraws | RosaServer/console.cpp:430-438 | a log line leaves the text alone and the row just as redrawn |
| EditorKeys.EventsAreKeys | RosaServer/console.cpp:146-407 | the events of a run are its keys in order, each Tab answered for the line as it then was |
| EditorKeys.TypedBytesAreSubmitted | RosaServer/console.cpp:146-404 | end to end, the bytes of a line and a newline on an empty buffer submit just that line |
| AutoComplete.AnswerMeetsSnapshot | RosaServer/console.cpp:88-137 | in every interleaving an answer in the making finds the console waiting and the line as it was snapshotted, which is also what the hook is given; never do both threads own the line |
| AutoComplete.EachTabAnsweredOnce | RosaServer/console.cpp:98-137 | every Tab gets exactly one answer and none is ignored |
| AutoComplete.NoHookKeepsText | RosaServer/hooks.cpp:452-465 | without a hook the text stays and the cursor goes to its end |
| Interleavings.HookAnswerIsShown | RosaServer/hooks.cpp:454-461 | with a hook, what it leaves as its response becomes the line, cursor at its end, whatever happens before the main thread responds |
| AutoComplete.InterleavingIsARun | RosaServer/console.cpp:98-137 | two interleaved threads leave the line and row of one sequential run, so the theorems about runs apply |
| Interleavings.StepsAreRecorded | RosaServer/console.cpp:98-144 | and the events of that run are the keys pressed, lines logged and answers given, in order; Tabs, answers, hooks and reset requests are counted as they came |
| Interleavings.LockedQueueOnlyShrinks | RosaServer/hooks.cpp:435-449 | while the main thread drains the queue, nothing is pushed into it |
| AutoComplete.CommandsAreTakenInOrder | RosaServer/hooks.cpp:434-450 | in every interleaving the commands taken, those queued and the one being pushed are those submitted, each once and in order |
| AutoComplete.ResetIsActedOn | RosaServer/hooks.cpp:395-401 | a tick replaces the Lua state exactly when a script or a command taken in the tick before asked for it, and clears the request |
| AutoComplete.NoCommandIsLost | RosaServer/hooks.cpp:434-450 | while there is a hook, what it got and what it will get of the commands on their way is all that was submitted, but for the resets |
| Liveness.WaitingCanEnd | RosaServer/console.cpp:128-136 | from every reachable state a few steps, at most seven more than commands are queued, bring the console thread back to reading and empty the queue |
| Liveness.EveryScheduleAnswers | RosaServer/hooks.cpp:452-465 | in every interleaving an awaited Tab is answered once the main thread has made seven steps more than commands were queued, whatever the console thread and scripts do meanwhile |
| Liveness.EveryScheduleTakes | RosaServer/hooks.cpp:434-450 | in every interleaving the commands queued now are taken once it has made six steps more than there are, before any submitted later |
| Workers.RunIsLossyFifo | RosaServer/worker.cpp:58-108 | the queue is the end of what was sent, at most 2047; received and dropped messages are ordered, disjoint and make up the rest |
| Workers.DroppedIff | RosaServer/worker.cpp:58-62 | message i is dropped exactly if message i + 2047 is pushed before i is taken |
| Workers.LosslessIffBacklogBounded | RosaServer/worker.cpp:58-93 | nothing is lost exactly when the backlog never exceeds 2047 |
| Workers.LosslessMeansPrefix | RosaServer/worker.cpp:64-77 | then the received messages are a prefix of those sent |
| Workers.NothingSentAfterStop | RosaServer/worker.cpp:79-93 | after a stop the main thread's messages are discarded |
| Workers.ChannelsCarryMessages | RosaServer/worker.cpp:58-93 | in any interleaving the channels carry just what the threads send, in order: the main thread's messages until the stop, and all of the script's |
| Workers.ReceivedAtReceives | RosaServer/worker.cpp:64-108 | a message counts as received at a receive of the other end and at no other event, one at a time and the next in turn |
| Workers.Worker.SendMessage | RosaServer/worker.cpp:87-93 | the queue after a push is the last 2047 of what it held and the message, unless stopped; it is that of the channel, and the other queue is untouched |
| Workers.Worker.ScriptSendMessage | RosaServer/worker.cpp:58-62 | the same for the script's end, stopped or not |
| Workers.Worker.ReceiveMessage | RosaServer/worker.cpp:95-108 | returns, as it was sent, the first message neither received nor dropped, nil iff there is none |
| Workers.Worker.ScriptReceiveMessage | RosaServer/worker.cpp:64-77 | the same for the script's end |
| Workers.Worker.StopWorker | RosaServer/worker.cpp:79-85 | sets the flag and touches no message |
| DataTables.RunIsSound | RosaServer/hooks.cpp:1045-1338 | in every run with hooks nested at will: no table is deleted twice, none is lost, none is in two slots, live ones belong to the current Lua state |
| DataTables.ExecKeeps | RosaServer/hooks.cpp:1045-1338 | each wrapper keeps that, and never puts an older table into a slot |
| DataTables.CreatedIsFresh | RosaServer/api.cpp:458-473 | on return from any creation the slot's table is null or younger than the call |
| TableTheorems.DeletedIsGone | RosaServer/hooks.cpp:1083-1112 | on return from any deletion the slot is empty, and every table it held at any time on the way, hooks included, has been deleted exactly once |
| TableTheorems.DeleteHookFindsTable | RosaServer/hooks.cpp:1095-1102 | the hook after a deletion still finds the entity's table, which is deleted after it |
| TableTheorems.ExecReplays | RosaServer/hooks.cpp:1045-1338 | however operations nest, they amount to their accesses to the slots one after the other |
| TableTheorems.FilledAfterIff | RosaServer/hooks.cpp:1045-1338 | a slot ends up filled exactly if the last access to it was a script asking for its table, or if it was filled and not accessed |
| TableTheorems.SecondFetchFindsTable | RosaServer/api.cpp:1844-1852 | a script that asks again gets the same table, whatever happens in between that neither creates nor deletes in that slot |
| TableTheorems.RefusedOrFailed | RosaServer/hooks.cpp:1048-1071 | what a hook refuses does not happen, and a creation that failed has no hook after it |
| DataTables.ResetFreesEverything | RosaServer/rosaserver.cpp:286-332 | a reset deletes every table exactly once before the Lua state goes |
| DataTables.PostHookFindsOlderTableIff | RosaServer/hooks.cpp:1185-1220 | the hook after a creation finds a table from before the call exactly for items, when the slot held one at the call and nothing on the way deleted it |
| DataTables.QuietPostHookFindsOlderTableIff | RosaServer/hooks.cpp:1185-1220 | where nothing else touches tables on the way that can be told before the call: an item whose slot is filled |
| DataTables.StaleItemTableIsReached | RosaServer/hooks.cpp:1185-1206 | a run in which it happens |
| DataTables.PostHookDataSurvivesIff | RosaServer/hooks.cpp:1198-1206 | data that hook attaches to the new entity survives exactly when it is no item |
| TableArrays.Tables.GetDataTable | RosaServer/api.cpp:1359-1367 | allocates on first use, and always returns the slot's table |
| TableArrays.Tables.Free | RosaServer/hooks.cpp:1058-1061 | deletes and nulls one entry and no other |
| TableArrays.Tables.LuaInit | RosaServer/rosaserver.cpp:280-336 | all six arrays are swept, then the state is replaced |
| TableArrays.Tables.Perform | RosaServer/hooks.cpp:1045-1338 | the wrappers, with whatever they call, do to the arrays what the specification says |
| TableArrays.Tables.EntriesAreSound | RosaServer/hooks.cpp:1045-1338 | after any of these no table is in two entries of the arrays, and every entry is an undeleted table of the current Lua state |
| Images.InsideIffFits | RosaServer/image.cpp:61-97 | all pixels lie inside the array exactly when width x height x channels does not wrap around |
| Images.PixelsDisjoint | RosaServer/image.cpp:83-145 | different pixels share no byte |
| Images.FittingIndex | RosaServer/image.cpp:83-97 | where the size fits, no index computation wraps |
| Images.Image.LoadBlank | RosaServer/image.cpp:45-72 | which dimensions are refused, in which order, and that a new image is black |
| Images.Image.Free | RosaServer/image.cpp:22-30 | data is null iff all dimensions are 0 |
| Images.Image.HoldsAllIffFits | RosaServer/image.cpp:45-101 | every pixel of an image can be read and written within its array exactly when the size did not wrap around |
| Images.Image.GetRGB | RosaServer/image.cpp:74-86 | errors, and otherwise the colour of the three bytes read, 255 for missing channels |
| Images.Image.GetRGBA | RosaServer/image.cpp:88-101 | the same with alpha |
| Images.Image.SetRGB | RosaServer/image.cpp:103-124 | errors; otherwise the pixel reads back as set and opaque, no other byte changes, and no other pixel where the size did not wrap around |
| Images.Image.SetRGBA | RosaServer/image.cpp:126-145 | the same with alpha |
| Pipes.LengthRoundTrip | RosaServer/childprocess.cpp:152-159 | four length bytes give back the length |
| Pipes.LengthIsLittleEndian | RosaServer/childprocess.cpp:177-179 | the header is the length in base 256, least significant byte first |
| Pipes.FirstFrame | RosaServerSatellite/main.cpp:31-46 | a stream of whole frames starts with a header that tells where its payload ends |
| Pipes.WholeIffFits | RosaServer/childprocess.cpp:177-185 | a message arrives whole exactly when its length fits in 32 bits |
| Pipes.Pipe.SendMessage | RosaServer/childprocess.cpp:174-192 | appends one whole frame |
| Pipes.Pipe.ReceiveMessage | RosaServerSatellite/main.cpp:26-49 | takes exactly one frame, nothing iff all was received; what is received is a prefix of what was sent |

## Left out

- The heuristic, the square-root cache and `fScores` of the search: computed, but never used for order or result.
- The standard library's own heap algorithm: `OpenSets.OpenSet` is a binary heap of this project; the theorems hold for any queue whose top is least.
- PointGraphs.PointGraph.FindShortestPath: scores are integers; `ScoresAreExactInDouble` gives the sizes up to which doubles agree. Where reconstruction would never end the model returns `NeverReturns` in its place.
- SearchOptimality.NothingDiscardedRouteIsShortest: one direction only, because an improvement discarded elsewhere need not matter to the goal; `RouteIsShortestIffNoDiscardHurts` is the exact condition.
- SearchOptimality.RouteIsShortestIffNoDiscardHurts: speaks of one run and one goal, so it reads the run; the condition on the graph, `AlwaysShortestIffFirstLinksAre`, is about all goals of a start together.
- PointGraphs.PointGraph.AddNode: node ids are not limited to 32 bits.
- The terminal: colours, line wrapping, characters of more than one byte, and rows that are not blank after a newline. A completion consists of printable bytes.
- Consoles.Console.Log: an escape code inside a line prints its characters, where a terminal would act on it; after a newline that makes no difference.
- The console before `init` and after an interrupt, when `log` does not redraw; `setTitle`; terminal modes.
- A log line that falls into the middle of a key's output: keys and log lines are atomic steps.
- AutoComplete.CommandsAreTakenInOrder: commands given on the server's command line are pushed before the first tick; the run starts with an empty queue.
- Consoles.Console.RespondToAutoComplete: the output outside the output lock is taken as one step with the rest.
- The branch for `1~`, which no code reaches: its first digit is missing from the case list above it.
- A hook that leaves no string as its completion, which makes the main thread throw.
- Sleeping, time-outs and the start and end of the worker's thread.
- TableArrays.Tables.Perform: scripts and engine calls are given as lists of operations; what they do besides touching tables is not modelled. Ids given by the engine are within the arrays.
- `createRope`, and account tables beyond first use and reset.
- Images.Image.GetRGBA: accesses to pixels whose bytes lie outside the array, which have no defined result; the same holds of the other pixel methods.
- Loading and saving image files; negative widths reported for images wider than 2^31.
- Pipes.Pipe.ReceiveMessage: a receive never starts between the header and the payload of a frame, and reads are not short; otherwise the code loses its place in the stream. Failing writes and the process itself are left out.
- Sockets, HTTP, SQLite, Opus, LZ4, OpenSSL, file watching, memory access, hook installation and the repetitive hook wrappers and Lua bindings.
