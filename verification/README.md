# Verified model of the envcheck engines

This project models the parts of `hcu-envcheck` whose correctness does not depend on I/O and
proves what they promise, for all inputs, all runs or all reachable states.

- **Group logs.** `LogFrames`, `LogChannel`, `TornFrames`: frames printed into one byte stream and scanned
  back, also after a failed write. `GroupStore`, `GroupLogs`: archiving and live appending as steps with a
  crash between any two. `LogIndex`: the text of the archive index.
- **Published facts.** `FactsHistory`: candidate builders and a compare-and-swap publisher.
  `CleanupEvidence`: what a recyclable verdict rests on.
- **Streaming transport.** `ClushRouter`, `ClushLog`, `ClushReads`: the chunk-fed router under every division
  of its input. `ClushSplitter`: the batch splitter.
  `BoundedCapture`: the head and tail window.
- **Node expressions.** `NodeMeaning`, `NodeTexts`: what an expression and a list of them stand for. `NodeFold`,
  `NodeExpressions`, `NodeFile`: folding host names, expanding them again, and collecting the node list of a host
  file.
- **Interface topology.** `Topology`, `TopologyLists`, `TopologySearch`: both depth-first searches over any finite,
  possibly cyclic graph, and the worklist.
- **Conda planning.** `CondaPlan`, `CondaDeep`: cohorts, observed mode, findings, representatives.
- **Comparison.** `CanonicalValue`, `PythonEquality`, `Consistency`, `AdapterProfile`: normal forms, Python's `==`
  on them, and the comparison of nodes.
- **Exact plans.** `RerunGrid`, `RerunText`, `RerunEmission`: the checks of a rerun plan, its text, and the text as
  the controller splits it again. `IbPlan`: the InfiniBand test plan.

`Wrappers`, `Bytes`, `Decimal` and `Ordering` hold shared definitions. Objects with changing fields
are classes, and loops are methods with invariants; each is proved equal to a function, and the main
results are lemmas about those functions.

Seven promises do not hold on all inputs of the code. The model keeps the code as it is, states exactly
when they do, and gives an input on which they fail:

- The router gives a result that does not depend on how the stream is divided if and only if no
  unattributed line has, 64 KiB or more into it, a position from which the rest starts with a node's label
  (`ClushRouter.NoLateLabels`). `feed` forgets that it is inside such a line (`baremetal.py:302-304`).
  `ClushReads.LateLabelExample` is such a stream, divided into reads of at most 64 KiB.
- Router and batch splitter attribute the same bytes after each line if and only if no labelled line holds
  an inner line terminator and no piece of an unattributed line passes for a labelled one
  (`ClushSplitter.LineAgrees`), as `str.splitlines` breaks lines where the router does not. LF and CR LF
  streams agree; the line of `ClushSplitter.InnerTerminatorExample` does not.
- Frames read back as written if and only if no raw line starts with the frame marker, every header
  fits the 8192-byte line limit, and every source is inside the task (`LogFrames.Recognisable`).
  `LogFrames.MarkerLineBreaks`, `LogFrames.OtherGroupBreaks` and `LogFrames.LongHeaderBreaks` are failing
  streams, one for each condition.
- Archived sources read back if and only if no committed name holds a line boundary of `str.splitlines`
  beyond the two that `_source` refuses, such as a form feed, or every committed source still has its file.
  Otherwise `_rows` rejects the whole index: every source without its file is unreadable and archiving
  stops, although the archive still holds all bytes. `GroupStore.FormFeedLosesReaders` is such a run.
- Nodes are grouped by the printed text of their configuration (`consistency.py:80`), but DIFFERENT is decided
  with Python's `==` (`consistency.py:116`), where `1 == 1.0 == True`. "More than one configuration group" and
  DIFFERENT coincide if and only if two configurations differ under `==` or no two differ only in equal numbers
  (`Consistency.StatusFitsGroups`). `Consistency.EqualNumbersHide` is a failing pair: memory sizes 65520 and
  65520.0 make two groups with nothing reported different. `Consistency.PlainHidesNothing` shows that this takes
  a truth value or a floating-point number.
- The text of an accepted rerun plan is read back by the controller (`controller.sh:180-219`) as exactly the
  plan's groups and stages if and only if every printed field has the form that `read` gives back
  (`RerunEmission.Printable`): no tab or line end in it (a tab inside the last field is kept), nothing behind an
  empty field, no comma in a member, and no line of another row that passes for a group or stage. None of this is
  checked for stage fields, nor for groups and members outside GPU operations, nor for the context reason.
  `RerunEmission.ExtraStageIsRead`, `RerunEmission.CommaMemberIsRead` and `RerunEmission.ReasonIsRead` are plans
  that say something else.
- The size bound checked before an InfiniBand plan is built is the plan's length if and only if no node
  is listed twice or there are no adapters; otherwise it is larger. `IbPlan.RepeatedNodeBound` shows
  a bound of six for a plan of two, and of two for an empty plan.

The documentation of `fold_node_names` calls its output unambiguous. That is proved for names without
brackets and commas (`NodeFold.PlainName`), which includes every name that `_normalize_node` accepts.

## Model

| member | source | states |
|---|---|---|
| LogFrames.ChannelRoundTrip | hcu-envcheck/hcu_envcheck/state_facts.py:106-151 | scanning the archived range of any interleaving of raw writes and feeds returns exactly the frames written, in order, with true offsets, lengths and checksums, if and only if the writers kept the channel recognisable |
| LogFrames.ContentsSurvive | hcu-envcheck/hcu_envcheck/state_facts.py:114-150 | the scanned ranges recorded for a file of the task concatenate to exactly the bytes fed to it under its runtime path or its logical path, whatever the bodies look like |
| LogFrames.RecordNames | hcu-envcheck/hcu_envcheck/state_facts.py:124-129 | every record names a fed file by its logical path and every fed file has a record, so no two files share a name |
| LogFrames.ParseSound | hcu-envcheck/hcu_envcheck/state_facts.py:106-151 | whatever bytes a range holds, the records of a scan that succeeds are in order, disjoint and in bounds, have true checksums and name files inside the task |
| LogFrames.SafeIsInside | hcu-envcheck/hcu_envcheck/state_facts.py:127-129 | a source is let through exactly when it is below the logical directory, has no `..` part and no character that breaks a row |
| LogFrames.TasksAreSeparate | hcu-envcheck/hcu_envcheck/state_facts.py:100-103 | no source lies under both a task's runtime directory and its logical directory |
| LogFrames.ReadItems | hcu-envcheck/hcu_envcheck/state_facts.py:114-150 | from any stream position, reading gaps and frames succeeds with the expected records exactly when no gap holds a marker line and every frame is good |
| LogFrames.ReadFrame | hcu-envcheck/hcu_envcheck/state_facts.py:118-148 | one printed frame is accepted, its body skipped unread, or refused as malformed when its header is too long and as unsafe when its source is outside the task |
| LogFrames.ReadGap | hcu-envcheck/hcu_envcheck/state_facts.py:149-150 | raw bytes without a marker line produce no record and leave the line-start state right, however the line limit cuts them |
| LogFrames.ReadMarker | hcu-envcheck/hcu_envcheck/state_facts.py:118-120 | a raw line that starts like a frame is never skipped: the scan fails or reports a record no later than the end of the raw bytes |
| LogFrames.EmitNormal | hcu-envcheck/hcu_envcheck/group_logs.py:197-210 | the bytes of any interleaving are raw gaps and complete frames in order |
| LogFrames.LawfulCodecExists | hcu-envcheck/hcu_envcheck/group_logs.py:202-208 | the assumed laws of base64 and of the checksum text are consistent |
| LogFrames.MarkerLineBreaks | hcu-envcheck/hcu_envcheck/state_facts.py:118-120 | a raw line that starts with the marker stops the scan and hides the frame fed after it |
| LogFrames.ForeignSourceBreaks | hcu-envcheck/hcu_envcheck/state_facts.py:124-129 | a frame for any source outside the task is not recognisable |
| LogFrames.OtherGroupBreaks | hcu-envcheck/hcu_envcheck/state_facts.py:124-129 | the file of another group's runtime directory is such a source |
| LogFrames.LongHeaderBreaks | hcu-envcheck/hcu_envcheck/state_facts.py:116-120 | a frame whose header does not fit the line limit is not recognisable |
| LogFrames.LongHeaderExists | hcu-envcheck/hcu_envcheck/state_facts.py:116-120 | such frames exist for a lawful encoding |
| TornFrames.TornFeed | hcu-envcheck/hcu_envcheck/group_logs.py:197-212 | what a failed feed leaves in the stream is a completed feed of its first chunks and a part of one frame |
| TornFrames.TornBody | hcu-envcheck/hcu_envcheck/state_facts.py:130-146 | a frame whose body was cut off takes its missing bytes from what follows: the scan fails when they are too few or have another checksum, and earlier records are never touched |
| TornFrames.TornBodyIsComplete | hcu-envcheck/hcu_envcheck/state_facts.py:130-146 | unless two checksums collide, a scan that succeeds has found the whole body of such a frame |
| TornFrames.TornHeader | hcu-envcheck/hcu_envcheck/state_facts.py:118-123 | a header cut off behind its marker stops the scan when any bytes that start a new line, or none, follow |
| TornFrames.TornMarker | hcu-envcheck/hcu_envcheck/state_facts.py:149-150 | a header cut off before its marker is complete is plain text when any writes that start a new line, or none, follow, and every complete frame is still found |
| LogChannel.Channel.WriteAll | hcu-envcheck/hcu_envcheck/group_logs.py:188-194 | however short the writes are, success means the whole value was appended once, and failure leaves a prefix of it |
| LogChannel.Channel.WriteFrame | hcu-envcheck/hcu_envcheck/group_logs.py:206-210 | a header and its body are appended together, or a prefix of them on failure |
| LogChannel.Channel.Append | hcu-envcheck/hcu_envcheck/group_logs.py:181-212 | a raw write is appended as it is, and a feed as its frames of at most 64 KiB, one empty frame for an empty feed |
| LogChannel.ReadLogFrames | hcu-envcheck/hcu_envcheck/state_facts.py:106-151 | the scanning loop yields the records that `ContentsSurvive`, `RecordNames` and `ParseSound` speak of, or the first error |
| GroupStore.BytesNeverLost | hcu-envcheck/hcu_envcheck/group_logs.py:306-365 | after any run with crashes anywhere, retries and other sources, the store holds exactly the bytes last written to a source's file, in the file or in its committed range |
| GroupStore.ReadersNeverLose | hcu-envcheck/hcu_envcheck/group_logs.py:404-426 | after any such run every source reads as its last written bytes, if and only if every committed name is free of line boundaries or every committed source still has its file |
| GroupStore.ReaderExact | hcu-envcheck/hcu_envcheck/group_logs.py:404-426 | one source reads as its last written bytes unless it has to be found in a rejected index, and then it does not read at all |
| GroupStore.ReadableExact | hcu-envcheck/hcu_envcheck/group_logs.py:268-280 | the index stays readable exactly as long as no name with a line boundary is committed |
| GroupStore.RejectedForever | hcu-envcheck/hcu_envcheck/group_logs.py:318-318 | once the index is rejected no row changes and no file is removed any more, and every source without a file stays unreadable |
| GroupStore.ArchivingIsSafe | hcu-envcheck/hcu_envcheck/group_logs.py:306-365 | archiving a file leaves what every reader sees unchanged if and only if its name is free of line boundaries |
| GroupStore.ReadableIsParse | hcu-envcheck/hcu_envcheck/group_logs.py:351-356 | the printed index parses back to its rows exactly when no name holds a line boundary, and is rejected otherwise |
| GroupStore.FormFeedLosesReaders | hcu-envcheck/hcu_envcheck/group_logs.py:261-265 | a run that archives two accepted names and leaves both unreadable, with their bytes in the archive |
| GroupStore.FileOrRow | hcu-envcheck/hcu_envcheck/group_logs.py:306-365 | a known source always has its intact file or an index row whose archive range is exactly its bytes |
| GroupStore.StepKeeps | hcu-envcheck/hcu_envcheck/group_logs.py:316-365 | every step of every operation, and a crash after it, keeps all rows and stream ranges valid and loses no content |
| GroupStore.RunKeeps | hcu-envcheck/hcu_envcheck/group_logs.py:306-365 | so does every run |
| GroupStore.StepGrows | hcu-envcheck/hcu_envcheck/group_logs.py:333-349 | no step shortens the archive or the stream index, and only a commit changes a row, that of its own source |
| GroupStore.RetryOnlyUnlinks | hcu-envcheck/hcu_envcheck/group_logs.py:316-330 | archiving a committed file again appends nothing and only removes the file, or is refused without a change when the index is rejected |
| GroupStore.VerifySucceeds | hcu-envcheck/hcu_envcheck/group_logs.py:346-348 | the checksum of the copied range always matches when the copy was completed |
| GroupStore.StreamsComplete | hcu-envcheck/hcu_envcheck/group_logs.py:155-179 | under any interleaving of feeds and any crash, indexed ranges are in bounds, in order and disjoint, and a source's ranges concatenate to everything acknowledged for it |
| GroupStore.FedIsAcknowledged | hcu-envcheck/hcu_envcheck/group_logs.py:162-177 | the stream index records exactly the feeds that returned, in the order they did |
| GroupLogs.GroupLog.ArchiveFile | hcu-envcheck/hcu_envcheck/group_logs.py:306-365 | refused without a change for a bad name, a rejected index or a missing file; otherwise the file becomes a verified range with its row and is removed only then, a second call appends nothing, and readers see no difference exactly when the name is free of line boundaries |
| GroupLogs.GroupLog.CopyIntoArchive | hcu-envcheck/hcu_envcheck/group_logs.py:331-345 | banner, the file in 64 KiB pieces and a newline are appended, and the recorded offset is where the file starts |
| GroupLogs.GroupLog.Append | hcu-envcheck/hcu_envcheck/group_logs.py:155-216 | a bad name is refused; success appends the bytes and, for a source, one row with their range; failure leaves a prefix in the archive and no row |
| GroupLogs.GroupLog.ReadLogText | hcu-envcheck/hcu_envcheck/group_logs.py:404-426 | the first bytes of the source's content, as many as the limit allows and all without one, from its file or from its range; an error when it has no file and the index is rejected |
| GroupLogs.GroupLog.WriteSource | hcu-envcheck/hcu_envcheck/group_logs.py:375-382 | writing a source file touches nothing else |
| LogIndex.IndexRoundTrip | hcu-envcheck/hcu_envcheck/group_logs.py:268-280 | a printed index reads back as its entries if and only if no source contains a line boundary, and is rejected as a whole otherwise |
| LogIndex.IndexExact | hcu-envcheck/hcu_envcheck/group_logs.py:268-280 | a text reads as these entries exactly when its lines are the header and one row of five fields with numbers for each of them |
| LogIndex.SplitLinesExact | hcu-envcheck/hcu_envcheck/group_logs.py:271-271 | the lines of a text are the ones it can be cut into, with CR LF as one line end |
| LogIndex.FormFeedBreaksIndex | hcu-envcheck/hcu_envcheck/group_logs.py:261-265 | a source that the writer accepts can make the index unreadable |
| FactsHistory.BuildCandidate | hcu-envcheck/hcu_envcheck/state_facts.py:355-381 | a candidate is built if and only if the revision is current, the stage has no row or a RUNNING row with this token, and a finish has one; the stage's one row then has the arguments' values and RUNNING, the handoff's result or BLOCKED, all other rows stay, every payload is appended in order, and the revision rises by one |
| FactsHistory.StepTasks | hcu-envcheck/hcu_envcheck/state_facts.py:368-377 | after a step the stage has one row with the arguments' phase, item and iteration and the status, cleanup and reason of its kind, and every other stage the rows it had |
| FactsHistory.StepEvidence | hcu-envcheck/hcu_envcheck/state_facts.py:82-84 | a step extends every table, and changes no rows of another stage |
| FactsHistory.CandidateRevision | hcu-envcheck/hcu_envcheck/state_facts.py:357-378 | a candidate is one revision above the expected one |
| FactsHistory.PublishedHistory | hcu-envcheck/hcu_envcheck/state_facts.py:1-8 | under any interleaving of builders and publications, stale candidates included, every published revision is one more than the last and was built from it |
| FactsHistory.StepKeeps | hcu-envcheck/hcu_envcheck/state_facts.py:355-381 | each build or publication keeps that invariant and only extends the history |
| FactsHistory.RunKeeps | hcu-envcheck/hcu_envcheck/state_facts.py:355-381 | so does every run |
| FactsHistory.OneTaskPerStage | hcu-envcheck/hcu_envcheck/state_facts.py:362-377 | at every revision a stage has at most one task row |
| FactsHistory.RowsPersist | hcu-envcheck/hcu_envcheck/state_facts.py:363-367 | a stage's row is never dropped, its token never changes, and a terminal row is never altered |
| FactsHistory.EvidenceOnce | hcu-envcheck/hcu_envcheck/state_facts.py:77-84 | a stage's evidence rows are appended at most once and are then final in every table |
| FactsHistory.EvidenceOnlyGrows | hcu-envcheck/hcu_envcheck/state_facts.py:82-84 | no evidence row is ever removed or reordered |
| CleanupEvidence.CheckAttempt | hcu-envcheck/hcu_envcheck/state_facts.py:206-239 | an attempt passes if and only if it is closed, this task's, covers exactly the planned nodes and every line is truthful about its guard receipt; null counts as no receipt, and other values or unparsable lines are refused |
| CleanupEvidence.RowExact | hcu-envcheck/hcu_envcheck/state_facts.py:216-239 | a line is accepted exactly when it is this attempt's, its evidence is inside, its receipt is null or this task's, and it says CONFIRMED just when the receipt proves the stop |
| CleanupEvidence.CollectAttempts | hcu-envcheck/hcu_envcheck/state_facts.py:205-242 | all attempts pass and there is at least one line, or the task is refused |
| CleanupEvidence.JudgeCleanup | hcu-envcheck/hcu_envcheck/state_facts.py:195-249 | when the handoff is accepted, and that a recyclable verdict implies stop evidence for every planned node in every attempt of the selected source |
| CleanupEvidence.ConfirmedMeansStopped | hcu-envcheck/hcu_envcheck/state_facts.py:233-249 | confirmed cleanup implies exit 0, one receipt with this task's token, STOPPED, zero remaining and a tombstone for every planned node |
| CleanupEvidence.StoppedMeansConfirmed | hcu-envcheck/hcu_envcheck/state_facts.py:244-249 | such evidence always satisfies the confirmation check |
| ClushRouter.OneLabel | hcu-envcheck/hcu_envcheck/baremetal.py:276-280 | a line carries the label of at most one space-free name |
| ClushSplitter.SameLabel | hcu-envcheck/hcu_envcheck/baremetal.py:1226-1231 | trying labels longest first or in writer order finds the same node |
| ClushRouter.OncePerGroup | hcu-envcheck/hcu_envcheck/baremetal.py:284-289 | an unattributed line goes to exactly one writer of each group |
| ClushRouter.LabelledShare | hcu-envcheck/hcu_envcheck/baremetal.py:272-290 | a line that starts with a node's name, a colon and a space goes to that node alone, without them |
| ClushRouter.UnlabelledShare | hcu-envcheck/hcu_envcheck/baremetal.py:272-290 | any other line goes whole to the first writer of each group |
| ClushRouter.OneChunk | hcu-envcheck/hcu_envcheck/baremetal.py:292-312 | a stream fed in one piece gives each writer its intended share, whatever its lines |
| ClushRouter.RouteCorrect | hcu-envcheck/hcu_envcheck/baremetal.py:292-312 | so does every division into chunks when no unattributed line has a late label |
| ClushReads.LateLabelBreaks | hcu-envcheck/hcu_envcheck/baremetal.py:302-304 | every such line has a division into reads of at most 64 KiB under which the router goes wrong |
| ClushReads.FeedAllBound | hcu-envcheck/hcu_envcheck/baremetal.py:292-312 | under every division the first writer of a group never gets more than its intended bytes, and fewer once a label is taken from the middle of a line |
| ClushReads.LateLabelExample | hcu-envcheck/hcu_envcheck/baremetal.py:302-304 | a stream, a writer and a division on which the router goes wrong |
| ClushReads.ChunkingIndependent | hcu-envcheck/hcu_envcheck/baremetal.py:292-312 | the router is right under all divisions, and under all divisions into reads of at most 64 KiB, if and only if there is no such line |
| ClushSplitter.RouterAgreesWithSplitter | hcu-envcheck/hcu_envcheck/baremetal.py:1222-1232 | each node's attributed bytes equal the batch splitter's text of the whole stream under every division, when every line agrees |
| ClushSplitter.AgreementExact | hcu-envcheck/hcu_envcheck/baremetal.py:1222-1232 | splitter and router attribute the same after each line of the stream if and only if no labelled line holds an inner terminator and no piece of an unattributed line passes for a labelled line with a text |
| ClushSplitter.LineExact | hcu-envcheck/hcu_envcheck/baremetal.py:1227-1231 | the same for one line and all nodes |
| ClushSplitter.InnerTerminatorExample | hcu-envcheck/hcu_envcheck/baremetal.py:1227-1231 | a line with an inner carriage return that the two attribute differently |
| ClushSplitter.UnixOrDosAgrees | hcu-envcheck/hcu_envcheck/baremetal.py:1227-1227 | every line of a stream whose only terminators are LF and CR LF agrees |
| ClushLog.DirectLog.Emit | hcu-envcheck/hcu_envcheck/baremetal.py:272-290 | a line, or the continuation of one, reaches the labelled node without its label, or each group once |
| ClushLog.DirectLog.Feed | hcu-envcheck/hcu_envcheck/baremetal.py:292-306 | feeding one stream drains its pending bytes and leaves the other stream alone |
| ClushLog.DirectLog.Flush | hcu-envcheck/hcu_envcheck/baremetal.py:308-312 | what is left of both streams is delivered |
| ClushLog.RouteStream | hcu-envcheck/hcu_envcheck/baremetal.py:292-312 | a stream fed to the object chunk by chunk and flushed gets the routed deliveries |
| BoundedCapture.Capture.Feed | hcu-envcheck/hcu_envcheck/baremetal.py:197-213 | after any feeds, head is the prefix of the stream and tail the last bytes of the remainder |
| BoundedCapture.Capture.Truncated | hcu-envcheck/hcu_envcheck/baremetal.py:215-217 | truncation is reported if and only if the stream exceeds the limit |
| BoundedCapture.Capture.Render | hcu-envcheck/hcu_envcheck/baremetal.py:219-225 | the whole stream, or its first half of the limit, its last bytes up to the limit and a count of exactly the stream's length minus the limit |
| BoundedCapture.FeedAll | hcu-envcheck/hcu_envcheck/baremetal.py:189-225 | the same of the concatenation of the chunks, however it is divided |
| BoundedCapture.WindowMoves | hcu-envcheck/hcu_envcheck/baremetal.py:204-213 | the windows of a longer stream follow from those of a shorter one |
| NodeFold.SamePrefixOrder | hcu-envcheck/cluster_run/preflight.py:35-41 | names with one prefix sort by the value of their number |
| NodeFold.FoldOrderedCorrect | hcu-envcheck/cluster_run/preflight.py:42-49 | the buckets and plain names hold exactly the names, each once, with padding kept |
| NodeFold.FoldedFully | hcu-envcheck/cluster_run/preflight.py:42-49 | no name that ends in a number is left alone, and names with one prefix and one number of digits end up in one bucket |
| NodeFold.BucketRunsMaximal | hcu-envcheck/cluster_run/preflight.py:55-65 | the printed ranges of a bucket cover its numbers in order and no two of them could be joined |
| NodeFold.FoldExpandRoundTrip | hcu-envcheck/hcu_envcheck/baremetal.py:49-104 | the printed text of any folding splits and expands to exactly its names, zero padding included |
| NodeExpressions.FoldedNamesExpand | hcu-envcheck/cluster_run/preflight.py:32-67 | for any set of plain names within the limit, folding and expanding gives each name exactly once and nothing else |
| NodeExpressions.FoldNodeNames | hcu-envcheck/cluster_run/preflight.py:32-67 | the loop prints that folding of the naturally sorted names, so its text expands to the names |
| NodeExpressions.SortNodes | hcu-envcheck/cluster_run/preflight.py:35-41 | each name once, in natural order |
| NodeExpressions.RunLabels | hcu-envcheck/cluster_run/preflight.py:55-65 | the range loop prints one text per maximal run |
| NodeExpressions.Render | hcu-envcheck/cluster_run/preflight.py:50-67 | plain names first, then one label per bucket |
| NodeExpressions.SplitTopLevelCommas | hcu-envcheck/hcu_envcheck/baremetal.py:49-66 | the non-empty parts that the text is cut into at the commas outside brackets, refused exactly when the brackets do not match |
| NodeExpressions.ExpandBracketExpression | hcu-envcheck/hcu_envcheck/baremetal.py:69-104 | succeeds with exactly the names that the expression stands for, if and only if they are no more than allowed |
| NodeMeaning.ItemExact | hcu-envcheck/hcu_envcheck/baremetal.py:87-96 | `a-b` expands to every number from a to b with as many digits as the longer of the two, and any other word to itself |
| NodeMeaning.ExpandExact | hcu-envcheck/hcu_envcheck/baremetal.py:69-104 | name i*n+j of an expression is its prefix, choice i and the j-th of the n names of what follows the bracket |
| NodeTexts.SplitExact | hcu-envcheck/hcu_envcheck/baremetal.py:49-66 | the parts of a text, and which bracket it is refused for |
| NodeTexts.TextExact | hcu-envcheck/hcu_envcheck/baremetal.py:147-148 | a text expands to the names of its parts, in order |
| NodeFile.FoldedNamesParse | hcu-envcheck/hcu_envcheck/baremetal.py:147-158 | for any set of host names within the limit, parsing their folded text lists each name exactly once and nothing else |
| NodeFile.ParsedNamesFold | hcu-envcheck/hcu_envcheck/baremetal.py:116-158 | whatever host file was accepted, folding its node list and parsing it again gives the same nodes |
| NodeFile.ParseNodes | hcu-envcheck/hcu_envcheck/baremetal.py:125-158 | the result is the first occurrences of the normal forms of the names that the expressions stand for, if and only if all of these are safe and they are neither none nor too many |
| NodeFile.AcceptedExact | hcu-envcheck/hcu_envcheck/baremetal.py:147-158 | a list has nodes in this sense exactly when the loops accept it, and only one list of them |
| NodeFile.AddExpression | hcu-envcheck/hcu_envcheck/baremetal.py:147-155 | one expression extends the list by its new names, or is refused for its syntax, a name or the limit |
| NodeFile.KeptIs | hcu-envcheck/hcu_envcheck/baremetal.py:149-153 | the listed nodes are the normal forms of the expanded names, each once, in the order of first occurrence |
| NodeFile.NormalizeExact | hcu-envcheck/hcu_envcheck/baremetal.py:107-113 | a node normalises to a name exactly when it is that safe name between blanks, or an address in brackets between blanks |
| NodeFile.HostNameIsItself | hcu-envcheck/hcu_envcheck/baremetal.py:107-113 | a safe host name is unchanged by normalisation and cannot be confused with expression syntax |
| Topology.CyclesReported | hcu-envcheck/hcu_envcheck/roce_health.py:523-553 | a cycle is reported if and only if one is reachable, and every reported cycle is a real, reachable closed walk; both searches |
| Topology.MissingReported | hcu-envcheck/hcu_envcheck/roce_health.py:534-538 | the missing names are exactly the reachable names without an inventory entry; both searches |
| TopologyLists.CyclesExact | hcu-envcheck/hcu_envcheck/roce_health.py:529-533 | the listed cycles are exactly the loops that a step back onto a repetition-free walk from the start closes; both searches |
| TopologyLists.PathsExact | hcu-envcheck/hcu_envcheck/roce_health.py:528-551 | the listed paths are exactly the repetition-free walks to an interface with nothing below it and, in the report, those that step back onto themselves |
| TopologyLists.PathsOnce | hcu-envcheck/hcu_envcheck/roce_health.py:550-551 | no path is listed twice |
| Topology.LeafReported | hcu-envcheck/hcu_envcheck/roce_health.py:547-549 | every reachable childless interface is a leaf |
| Topology.ReportLeaves | hcu-envcheck/hcu_envcheck/roce_health.py:523-554 | the report's leaves are exactly those interfaces, the missing names and the names that close a cycle |
| Topology.ProbeLeaves | hcu-envcheck/hcu_envcheck/pod_probe.py:861-886 | the probe's leaves are exactly the reachable, present, childless interfaces |
| Topology.SearchesAgree | hcu-envcheck/hcu_envcheck/pod_probe.py:867-885 | both searches find the same cycles and missing names, and the same paths when there are none |
| Topology.WalkSound | hcu-envcheck/hcu_envcheck/roce_health.py:528-551 | from any path, every reported path is a walk from the start and every report is true of the graph |
| Topology.NoCycleNoRepeat | hcu-envcheck/hcu_envcheck/roce_health.py:529-533 | when no cycle is reported, no walk from the start repeats a name |
| Topology.Arrives | hcu-envcheck/hcu_envcheck/roce_health.py:550-551 | the search visits every reachable name along every walk without repetition |
| Topology.ChildrenAre | hcu-envcheck/hcu_envcheck/roce_health.py:539-546 | children are the non-blank slaves and lower interfaces, each once, in order |
| TopologySearch.Search.Visit | hcu-envcheck/hcu_envcheck/roce_health.py:528-551 | the recursive search ends on every finite graph and appends its findings to the shared lists |
| TopologySearch.SearchFrom | hcu-envcheck/hcu_envcheck/roce_health.py:553-554 | a search from a name leaves the findings that the theorems speak of |
| TopologySearch.CollectInterfaces | hcu-envcheck/hcu_envcheck/pod_probe.py:1342-1385 | the worklist ends on cyclic graphs and adds exactly the present interfaces reachable from a candidate |
| CondaPlan.PlanCollection | hcu-envcheck/hcu_envcheck/conda_mode.py:454-661 | which inputs are refused, and that every other input gets a plan of its own nodes and observations |
| CondaPlan.CollectObservations | hcu-envcheck/hcu_envcheck/conda_mode.py:479-485 | every observation is kept by node, or one is out of scope or repeated |
| CondaPlan.ArrangeNodes | hcu-envcheck/hcu_envcheck/conda_mode.py:473-477 | the expected nodes in order, refused when there are none or one repeats |
| CondaPlan.GroupNodes | hcu-envcheck/hcu_envcheck/conda_mode.py:487-606 | the loop gives every node one cohort of its key, lists the cohorts by their first nodes as the final sort leaves them, probes exactly the usable nodes in order and reports each failing one |
| CondaPlan.SamePayload | hcu-envcheck/hcu_envcheck/conda_mode.py:401-415 | two nodes get one key if and only if they are one node or are usable on the same complete shared storage |
| CondaPlan.VerdictExact | hcu-envcheck/hcu_envcheck/conda_mode.py:616-642 | there is no finding if and only if the observed mode is the declared mode |
| CondaPlan.ModeExact | hcu-envcheck/hcu_envcheck/conda_mode.py:430-451 | the mode is shared exactly when all nodes are confirmed on one identical shared storage, node-local exactly when all are confirmed local, and unknown exactly when one is neither |
| CondaPlan.ClassifyMeans | hcu-envcheck/hcu_envcheck/conda_mode.py:387-400 | the verdict and reason of a node, read off its evidence |
| CondaPlan.CohortVerdicts | hcu-envcheck/hcu_envcheck/conda_mode.py:487-585 | a cohort has the verdict of each of its nodes and a representative when their evidence is usable, and the probed nodes are those with usable evidence |
| CondaPlan.FindingsExact | hcu-envcheck/hcu_envcheck/conda_mode.py:617-642 | one finding for each node that does not pass, and one for the plan exactly when declared shared storage is split; the mode mismatch of a whole plan is never reported |
| CondaPlan.SharedMeans | hcu-envcheck/hcu_envcheck/conda_mode.py:444-445 | "shared" means all expected nodes have one identical complete shared identity |
| CondaPlan.NodeLocalMeans | hcu-envcheck/hcu_envcheck/conda_mode.py:446-450 | "node-local" means every node is alone in a confirmed local cohort |
| CondaPlan.CohortsPartition | hcu-envcheck/hcu_envcheck/conda_mode.py:542-585 | cohorts partition the expected nodes, and two nodes share one if and only if both are confirmed on the same shared storage |
| CondaPlan.Representatives | hcu-envcheck/hcu_envcheck/conda_mode.py:566-576 | a cohort is represented exactly when it is usable, by its least node |
| CondaPlan.ArtifactsHitOnce | hcu-envcheck/hcu_envcheck/conda_mode.py:644-650 | the artifact nodes hit each usable cohort exactly once and no other node |
| CondaPlan.OrderIrrelevant | hcu-envcheck/hcu_envcheck/conda_mode.py:454-466 | mode, findings, the list of cohorts and the list of probed nodes do not depend on the order of observations |
| CondaDeep.DeepRepresentatives | hcu-envcheck/hcu_envcheck/conda_mode.py:664-695 | each storage and host class of the probed nodes is hit exactly once, by its least node; refused exactly for a host mapping of other nodes or with a blank name or a control character |
| CondaDeep.RequiredExact | hcu-envcheck/hcu_envcheck/conda_mode.py:90-95 | a host name is refused exactly when it is blank or holds a control character, and is stripped otherwise |
| CondaDeep.StorageIsCohort | hcu-envcheck/hcu_envcheck/conda_mode.py:682-692 | two probed nodes are in one storage class if and only if they share a cohort |
| CondaDeep.GroupProbes | hcu-envcheck/hcu_envcheck/conda_mode.py:688-694 | the groups hold exactly the probed nodes, each under its class |
| CanonicalValue.CanonicalDecides | hcu-envcheck/hcu_envcheck/environment.py:42-47 | for every sort key that tells values apart, two nested values have equal normal forms if and only if they are equal up to reordering of every list and dict at every depth |
| CanonicalValue.CanonicalIsNormal | hcu-envcheck/hcu_envcheck/environment.py:42-47 | the function is idempotent and its result is unchanged by key sorting |
| CanonicalValue.PrintInjective | hcu-envcheck/hcu_envcheck/environment.py:46-46 | printing the kinds, keys and atoms of a value in order tells any two values apart, also as prefixes of longer text |
| CanonicalValue.DumpsInjective | hcu-envcheck/hcu_envcheck/environment.py:46-46 | the sort key tells normal forms apart |
| CanonicalValue.LawfulDumpExists | hcu-envcheck/hcu_envcheck/environment.py:46-46 | the law asked of the sort key can be met |
| Consistency.ViewsDecide | hcu-envcheck/cluster_run/consistency.py:75-79 | two records have equal views if and only if the enabled sections are equal up to reordering |
| Consistency.KeyDecides | hcu-envcheck/cluster_run/consistency.py:80-80 | the grouping key tells views apart |
| Consistency.SameGroup | hcu-envcheck/cluster_run/consistency.py:80-91 | two records share a configuration group if and only if their selected values are equal up to reordering |
| Consistency.BuildGroups | hcu-envcheck/cluster_run/consistency.py:70-98 | one group per distinct view, listing exactly its nodes, in order, split by status |
| Consistency.CompleteExact | hcu-envcheck/cluster_run/consistency.py:36-60 | no evidence is missing exactly when the node was reached and every field of the scope has a value |
| Consistency.Compare | hcu-envcheck/cluster_run/consistency.py:36-139 | DIFFERENT if and only if the configurations of two records differ under Python's equality; SAME if and only if two or more records with no missing evidence are all equal under it |
| Consistency.ReferenceDecides | hcu-envcheck/cluster_run/consistency.py:113-117 | some group differs from the reference if and only if two records differ, whichever group is the reference |
| Consistency.GroupCount | hcu-envcheck/cluster_run/consistency.py:80-100 | there is more than one group if and only if two records differ by more than reordering |
| Consistency.StatusFitsGroups | hcu-envcheck/cluster_run/consistency.py:80-139 | more than one group and DIFFERENT coincide if and only if two records differ under Python's equality or no two differ only in equal numbers |
| Consistency.PlainHidesNothing | hcu-envcheck/cluster_run/consistency.py:116-116 | records without truth values and floating-point numbers never differ only in equal numbers |
| Consistency.EqualNumbersHide | hcu-envcheck/cluster_run/consistency.py:116-116 | two complete records with memory sizes 65520 and 65520.0 differ only in equal numbers |
| PythonEquality.Symmetric | hcu-envcheck/cluster_run/consistency.py:116-116 | Python's equality is symmetric on values with distinct keys |
| PythonEquality.Transitive | hcu-envcheck/cluster_run/consistency.py:116-116 | Python's equality is transitive, so it does not matter which group is the reference |
| PythonEquality.IntegersEqual | hcu-envcheck/cluster_run/consistency.py:116-116 | True is 1, False is 0, an integer equals only itself, and both float zeros are 0 |
| PythonEquality.IntegerFloat | hcu-envcheck/cluster_run/consistency.py:116-116 | an integer equals a float exactly when the float is whole and is that integer |
| PythonEquality.FloatsDiffer | hcu-envcheck/cluster_run/consistency.py:116-116 | floats are equal only if they are one float, or zeros |
| PythonEquality.PlainExact | hcu-envcheck/cluster_run/consistency.py:80-116 | on normal forms without truth values and floating-point numbers Python's equality and equal printed text are the same |
| PythonEquality.CanonicalValid | hcu-envcheck/hcu_envcheck/environment.py:42-47 | normal forms keep dict keys distinct at every depth |
| AdapterProfile.Inventory | hcu-envcheck/hcu_envcheck/environment.py:131-176 | distinct entries whose counts sum to the number of adapters and, for any fields and values, to the number of adapters with them |
| AdapterProfile.ProjectProfile | hcu-envcheck/hcu_envcheck/environment.py:196-210 | distinct entries with the kept fields only; the total and the count of every choice of values of them stay |
| AdapterProfile.Profile | hcu-envcheck/hcu_envcheck/environment.py:179-210 | entries with the kept fields only, each counting exactly the adapters that agree with it on those fields; every adapter agrees with exactly one |
| RerunGrid.Validate | hcu-envcheck/cluster_run/rerun_plan.py:65-161 | a plan is emitted if and only if it is acceptable, which an empty one is not, and then as exactly the groups and stages of its entries, the stages in the order of their first entries |
| RerunGrid.Take | hcu-envcheck/cluster_run/rerun_plan.py:95-132 | an entry is accepted if and only if it is well formed and compatible with every entry before it |
| RerunGrid.GpuNamesExact | hcu-envcheck/cluster_run/rerun_plan.py:105-107 | the patterns of GPU operations admit `group-` and a number, and members of letters, digits, underscores, dots and dashes that start with a letter or digit |
| RerunGrid.CheckGrid | hcu-envcheck/cluster_run/rerun_plan.py:148-154 | the grid check passes if and only if every stage is planned for every group |
| RerunGrid.CheckContext | hcu-envcheck/cluster_run/rerun_plan.py:156-161 | a clash is found if and only if a non-participating node is a member of a group |
| RerunGrid.GridIsBijection | hcu-envcheck/cluster_run/rerun_plan.py:117-154 | read off acceptance: cells of the grid and stage entries correspond, none extra, missing or repeated |
| RerunGrid.GridIsExact | hcu-envcheck/cluster_run/rerun_plan.py:148-154 | the stage entries are exactly the stages of the grid times its groups, up to order, and as many |
| RerunGrid.GridIsConsistent | hcu-envcheck/cluster_run/rerun_plan.py:117-161 | read off acceptance: each stage id has one item and iteration, and no context node is in a group |
| RerunText.RowExact | hcu-envcheck/cluster_run/controller.sh:180-212 | a printed group or stage row is read back as itself if and only if its fields have no separators and no gaps |
| RerunText.TextExact | hcu-envcheck/cluster_run/controller.sh:180-219 | the printed rows, between any other lines, are read back as exactly the printed ones if and only if each is and no other line passes for one |
| RerunEmission.WriteRows | hcu-envcheck/cluster_run/rerun_plan.py:175-178 | the writing loops print the groups in order and then the stages |
| RerunEmission.EmittedExact | hcu-envcheck/cluster_run/rerun_plan.py:162-180 | the emitted text of an accepted plan reads back as exactly its groups and stages if and only if it is printable |
| RerunEmission.ReadGridExact | hcu-envcheck/cluster_run/rerun_plan.py:148-180 | what the controller reads from an accepted, printable plan are exactly its stage entries, as stages read times groups read, with their members, and no context node is a member read |
| RerunEmission.GpuNamesPrint | hcu-envcheck/cluster_run/rerun_plan.py:105-107 | the names that GPU operations demand already have the form of a group row |
| RerunEmission.ClosingSilent | hcu-envcheck/cluster_run/rerun_plan.py:179-180 | context nodes and a reason without line ends are never taken for a group or stage |
| RerunEmission.ExtraStageIsRead | hcu-envcheck/cluster_run/rerun_plan.py:177-178 | an accepted plan with one stage entry that is read as two stages |
| RerunEmission.CommaMemberIsRead | hcu-envcheck/cluster_run/rerun_plan.py:156-176 | an accepted plan whose context node is read as a member of a group |
| RerunEmission.ReasonIsRead | hcu-envcheck/cluster_run/rerun_plan.py:179-179 | a context reason that is read as a stage no entry has |
| IbPlan.BuildPlan | hcu-envcheck/hcu_envcheck/cluster_checks.py:203-233 | which inventories are refused, and that every other list gets the plan of its rail count, empty for a single node |
| IbPlan.PlanExact | hcu-envcheck/hcu_envcheck/cluster_checks.py:219-232 | every ordered pair of different nodes on every rail exactly once, and nothing else |
| IbPlan.PlanLength | hcu-envcheck/hcu_envcheck/cluster_checks.py:905-909 | the plan is never longer than the bound, and is that long exactly when no node is listed twice or there are no adapters |
| IbPlan.RepeatedNodeBound | hcu-envcheck/hcu_envcheck/cluster_checks.py:906-906 | two lists with a repeated node whose bound is too large |
| IbPlan.FirstOccurrences | hcu-envcheck/hcu_envcheck/cluster_checks.py:207-207 | each node once, in the order of first occurrence |
| IbPlan.FirstsAre | hcu-envcheck/hcu_envcheck/cluster_checks.py:207-207 | the same nodes once each, as many as listed exactly when none repeats |
| IbPlan.AllIs | hcu-envcheck/hcu_envcheck/cluster_checks.py:219-232 | the nested loops produce exactly the directions of the given sources, without repetition, and how many |
| IbPlan.AssignPorts | hcu-envcheck/hcu_envcheck/cluster_checks.py:948-965 | control ports are pairwise distinct and at most 65535, refused exactly when the range is too small |

## Left out

Abstractions:

- SHA-256: collision-free in `GroupStore` and an arbitrary function printed as 64 hexadecimal digits in `LogFrames`.
- base64 with UTF-8: any invertible encoding without tab or newline; `LogFrames.LawfulCodecExists` shows one.
- json.dumps: any text that tells values apart up to key order; `CanonicalValue.LawfulDumpExists` shows one.
- CanonicalValue.CanonicalDecides: a float is an odd number times a power of two, or a zero with its sign; NaN and the infinities are left out, and strings are compared as they are.
- Consistency.Compare: the selection of static fields is done before; per-field differences, summary counts and natural sorting of nodes and groups are not modelled.
- CondaPlan.PlanCollection: node names and identity fields are taken as already stripped and lower-cased, prefixes as normalised, and a cohort is known by its payload instead of by the 48-bit digest printed as its id.
- CondaDeep.DeepRepresentatives: storage classes are payloads instead of printed ids, and `strip` and the control characters of a host name are those of ASCII.
- AdapterProfile.Inventory: starts from the adapter entries after their fields are defaulted; values are text, an absent field is a missing key, and output sorting is left out.
- RerunGrid.Validate: starts after blank members and context nodes are dropped; scale resolution, its partial-group refusal, fingerprints and JSON shape checks are left out.
- RerunEmission.EmittedExact: the order in which groups are written is a parameter, as is the text of their display order; what the controller does with the rows afterwards, such as looking members up in the host file, is not modelled, and neither are NUL characters.
- IbPlan.BuildPlan: building the plan only; running tests, limits on concurrency and evidence files are left out.
- CleanupEvidence.JudgeCleanup: the identity check of a handoff is the token, and an attempt's directory order and the paths written back are left out.
- FactsHistory.BuildCandidate: a finish handoff is its end state and rows for the append-only tables; `devices` and `rccl_plan`, which are replaced, and the validation of the versioned format are left out.
- FactsHistory.PublishedHistory: the Bash publisher is not part of this model; it is taken as compare-and-swap on the expected revision.
- GroupStore.ReadersNeverLose: one process and one group, as `_archive_file` takes only an in-process lock, so an index of another group is never in the way; a write is durable once made, index replacement is atomic, and the index lines of feeds are appended whole. A direct-log source is not also archived as a file.
- GroupLogs.GroupLog.ReadLogText: the legacy branch only; the fragment readers of `reporting` are not part of this model.
- ClushSplitter.RouterAgreesWithSplitter: works on bytes, so the line boundaries of `str.splitlines` outside ASCII are not modelled; two differences may cancel out over a whole stream, so the exact condition is about agreement after each line.
- ClushReads.ChunkingIndependent: every labelled node has a writer, its name has no space or newline, and it is shorter than a read.
- BoundedCapture.FeedAll: bytes, as both halves are decoded separately.
- NodeExpressions.FoldNodeNames: ASCII digits and bytes, where Python's `\d` and `isdigit` also know other digits.
- NodeFile.ParseNodes: starts from the first field of every line; line splitting, shell-style quoting and the `key=value` options are left out, and `strip` removes ASCII blanks only.

Not modelled, as these are effects or would only add easy members:

- SSH, clush, containers, threads, signals, file modes, fsync, directory walking, argument parsing and Markdown.
- `normalize`, the closed log index and its aliases, timeout, execution and InfiniBand tables of `finish`.
- `_parse_pairs`, `_parse_pfc`, threshold ladders and status tables.
