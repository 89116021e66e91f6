# RelayFlow: a verified model of the workflow engine

RelayFlow runs workflows: directed graphs of a trigger, filters, transforms and actions. This project models the
engine's algorithmic parts in Dafny and proves what they do for every input, every run and every interleaving.
`dafny verify dfyconfig.toml` checks all of it.

| file | part of the system |
|---|---|
| `Graphs.dfy`, `Draining.dfy`, `Validation.dfy`, `Sorting.dfy` | the graph schema: validation (Kahn's algorithm, stack search) and topological sorting |
| `Actions.dfy`, `Runner.dfy`, `Transforms.dfy` | the runner: retry with backoff, the walk over the sorted nodes, transforms and filters |
| `Diagnostics.dfy` | what each message of validation says about the graph |
| `RepeatedKeys.dfy` | what validation and sorting guarantee when node keys repeat |
| `Paths.dfy`, `Documents.dfy` | the JSON path language: tokenizer, getter, setter |
| `Base32.dfy`, `Totp.dfy` | Base32 with a 32-bit accumulator, against the bit groups of section 6 of RFC 4648 |
| `RateLimit.dfy` | the token bucket, with key expiry and the retry hint |
| `Protocol.dfy`, `Execution.dfy` | the execution protocol: interleaved workers over the run and dead-letter tables, and one execution as written |
| `Csv.dfy` | the CSV printer against a reader for section 2 of RFC 4180 |
| `Schedules.dfy` | schedule ids, their decoding by the worker, and the reconciler |
| `Sequences.dfy`, `Numbers.dfy`, `Results.dfy` | shared facts and carriers |

Code that works by updating variables is a method with the source's loops, proved against a specification function or
a predicate; the lemmas then say what that specification guarantees. `validateGraph`, `topoSort` and `runWorkflow` are
split into one method per loop. The two textual copies of Kahn's loop are one method, `Draining.Drain`; the sorter looks
each drained key up afterwards instead of while draining.

## Main results

- A graph is accepted exactly when `Graphs.Accepts` holds, for all graphs, and with distinct keys that is: one trigger,
  edges between known different nodes without repetition, no directed cycle, everything reachable. The exact general
  condition counts nodes, not keys: no set of keys may be *stuck*, that is, need more predecessors than there are nodes
  outside the set to supply them.
- Unique node keys are documented (`lib/dag/schema.ts:10`) but never checked. A node list is *exposed* if the trigger's
  key repeats, at least two other keys exist and none of them repeats. Acceptance excludes cycles for every choice of
  edges if and only if the node list is not exposed; sorting gives a topological order if and only if the keys are
  distinct.
- With distinct keys, an action is dispatched only after all its ancestors have succeeded, with their outputs and exactly
  the variables made so far in hand, and never if a failed step reaches it: one contract on `RunWorkflow`. Without
  distinct keys, ancestors come first for every choice of edges if and only if the node list is not exposed, or has no
  action beside the trigger's key, or nothing can be dispatched there.
- The status saved for a run is that of its log: succeeded if and only if every record succeeded, filtered if a filter
  failed, failed if an action did. `ExecuteWorkflowRun` states its result, row and letter case by case.
- An action is dispatched as long as the dispatcher's reply asks again and an attempt is left; the record succeeds if
  and only if the last reply is a result that is ok, and otherwise carries its message or the exception's.
- When a run fails, exactly one action failed, and the dead letter tells of it exactly if it is the last node of the
  order: a contract on `ExecuteWorkflowRun`.
- What every path means, by its dots, brackets and stretches of text, and which paths are errors.
- Exactly when a `setPath` write changes nothing, and exactly when a transform delivers every mapping.
- The unmasked 32-bit accumulator of the Base32 codec is harmless because at most twelve bits are ever pending.
- The rate limit over any window, expiry included; expiry changes no decision exactly if the bucket refills or holds
  nothing; waiting out the retry hint admits exactly when the bucket refills and holds something.
- Each execution id runs at most once under any interleaving, crash and redelivery, and a run whose worker dies is never
  taken up again.
- A CSV file reads back exactly, if and only if there is no row or the first row has a column; the reader then finds
  under each header the cell of the row that was printed.
- After reconciliation the managed schedulers are exactly those that schedule triggers of accepted active workflows
  call for, with their ids, patterns and data.
- A job that a scheduler yields with its data is never decoded to its own schedule: the data branch omits the `scr:`
  prefix. It is dropped, unless the organization is called `scr` or starts with the prefix and the three components hold
  exactly one colon in all.

## Where the code and its documentation differ

The model follows the code.

- `lib/dag/schema.ts:10` promises unique keys and that a malformed graph never reaches the runner; see above.
- Edges are remembered as two keys joined by a NUL character (`lib/dag/schema.ts:253`), so with NUL characters in keys
  two different edges can be reported as duplicates. Statements about all choices of edges are made for keys whose
  joined pairs tell edges apart (`PairsTell`), as keys without NUL do.
- `lib/ratelimit.ts:9-10` speaks of a rate per second; the value passed is per millisecond, which makes the expiry and
  the retry hint far longer than the refill needs.
- `lib/workers.ts:12-13` says that schedule jobs carry no data; the schedulers attach data to every job.
- `lib/path.ts:112-115` promises that missing containers are created; where an existing value has the wrong shape the
  write goes to a detached container instead.
- The comment at `lib/execute.ts:21` names a unique key on organization and execution id; the schema also has one on the
  execution id alone, which is the one the model uses.

## Assumptions

- Node keys are not empty where a statement says `NonEmptyKeys`: the key schema demands it (`lib/dag/schema.ts:16`).
- The dispatcher is an arbitrary function of the call's number, the node, the variables and the attempt, so it may answer
  differently every time. Filter comparisons other than existence are an arbitrary function of both sides.
- Tokens of a bucket are exact 60000ths and times are whole milliseconds.
- Upper-casing before Base32 decoding is an arbitrary function; the round trip needs only that it keeps A-Z and 2-7.
- A database operation is atomic; a crash falls between operations. Row ids are positions in the table.

## Model

| member | source | states |
|---|---|---|
| Graphs.EdgeErrorsEmpty | lib/dag/schema.ts:243-261 | no edge is reported iff all edges join two different known nodes and no two share a joined pair; then all are kept |
| Graphs.PairInjective | lib/dag/schema.ts:253-257 | for keys without NUL the remembered pair determines the edge |
| Graphs.DistinctEdgesPass | lib/dag/schema.ts:243-261 | the edge checks pass every list of distinct edges between known nodes iff no two such edges share a joined pair |
| Graphs.NulFreeTells | lib/dag/schema.ts:253 | keys without NUL never share a joined pair |
| Graphs.PairCollision | lib/dag/schema.ts:253 | four keys, two of them with NUL, for which two different edges share a joined pair |
| Draining.DecrementAll | lib/dag/schema.ts:269-274 | every successor's indegree drops by one, and those that reach zero are pushed in edge order |
| Draining.Drain | lib/dag/schema.ts:264-275 | terminates; the visited keys are the sources, then each key once and only after enough predecessors, first in first out, until nothing more can drain |
| Draining.StuckNeverDrains | lib/dag/schema.ts:266-275 | no key of a stuck set is ever visited |
| Draining.LeftoverIsStuck | lib/dag/schema.ts:276-279 | if keys with predecessors are distinct, the keys left over form a stuck set |
| Draining.DrainedCount | lib/dag/schema.ts:276 | as many keys are visited as there are nodes iff keys with predecessors are distinct and no set is stuck |
| Draining.FifoUnique | lib/dag/schema.ts:264-275 | the first-in-first-out law determines the visiting order |
| Draining.SuccessorsIndexed | lib/dag/schema.ts:259 | the successors of a key stand for its edges, each once and in edge order |
| Validation.EmptyTables | lib/dag/schema.ts:237-242 | both tables describe a graph without edges |
| Validation.CheckEdge | lib/dag/schema.ts:244-260 | one edge is reported or recorded, and the tables keep describing the kept edges |
| Validation.CheckEdges | lib/dag/schema.ts:243-261 | the messages are those of the bad edges in order; the tables describe the kept edges, successors in edge order |
| Validation.Search | lib/dag/schema.ts:284-295 | terminates although the stack may hold duplicates; finds exactly the keys with a path from the start |
| Validation.ReportCycle | lib/dag/schema.ts:263-279 | names, in node order, exactly the nodes that the first-in-first-out drain did not visit; nothing if it visited as many keys as there are nodes |
| Validation.CycleMessage | lib/dag/schema.ts:263-279 | there is no cycle message iff everything drains; with distinct keys below the sources it names the members of stuck sets |
| Validation.ReportUnreachable | lib/dag/schema.ts:296-300 | one message per unreachable node, in order |
| Validation.ValidateGraph | lib/dag/schema.ts:222-304 | all messages, in order and with their contents, as a function of the graph; none iff the graph satisfies Accepts, for any graph |
| Diagnostics.MessagesMean | lib/dag/schema.ts:222-304 | a message is given iff it is justified by the nodes and edges themselves, and the kinds of messages follow one another in the order of the checks |
| Validation.StuckMeansFed | lib/dag/schema.ts:263-279 | with distinct keys a set is stuck iff each member has a predecessor inside it |
| Validation.DrainsIffAcyclic | lib/dag/schema.ts:263-279 | with distinct keys everything drains iff there is no directed cycle |
| Validation.AcceptsIffWellFormed | lib/dag/schema.ts:222-304 | with distinct keys, accepted iff one trigger, proper distinct edges, acyclic, all reachable |
| Validation.AcceptedEdges | lib/dag/schema.ts:243-261 | accepted edges are the listed ones without repetition; without NUL, distinct pairs means distinct edges |
| Validation.TriggerIsOnlySource | lib/dag/schema.ts:264-301 | in an accepted graph the trigger's key is the only one without predecessors |
| Validation.OnlyTriggerKeyRepeats | lib/dag/schema.ts:230-301 | in an accepted graph only the trigger's key can repeat; keys are distinct iff it occurs once |
| RepeatedKeys.LoopAccepted | lib/dag/schema.ts:222-304 | over every exposed node list a cyclic graph is accepted, whatever two further keys make up the cycle |
| RepeatedKeys.AcyclicIffNotExposed | lib/dag/schema.ts:222-304 | acceptance excludes cycles for every choice of edges iff the node list is not exposed |
| Sorting.ByKeyIsLast | lib/dag/schema.ts:368 | the node table holds the last node with a key |
| Sorting.BuildTables | lib/dag/schema.ts:356-365 | without any check, the tables of a validated graph describe its edges |
| Sorting.SortValid | lib/dag/schema.ts:356-379 | the keys of the complete first-in-first-out drain, each looked up as the last node listed with it |
| Sorting.TopoSort | lib/dag/schema.ts:351-380 | fails with the messages of validation iff the graph is not accepted; else gives the sort order, a function of the graph |
| Sorting.SortOrderDrained | lib/dag/schema.ts:351-380 | for every accepted graph: as many entries per key as nodes, all copies of the trigger's key first, each key after enough predecessors |
| Sorting.TopologicalIffDistinct | lib/dag/schema.ts:351-380 | the sort order of an accepted graph is a topological order iff the keys are distinct |
| Sorting.SortedIsTopological | lib/dag/schema.ts:351-380 | with distinct keys: a permutation of the nodes, every edge forward, the trigger first and the only trigger |
| Sorting.RepeatedTriggerKeyDropsNodes | lib/dag/schema.ts:368-371 | with a repeated trigger key the last node with it is emitted repeatedly, and the trigger is lost unless it is that node |
| Sorting.AncestorComesFirst | lib/dag/schema.ts:366-379 | in a topological order every ancestor stands before its descendants |
| Validation.VisitedUnique | lib/dag/schema.ts:264-275 | the visiting order is the only one that obeys the queue law |
| Paths.ReadBracket | lib/path.ts:42-45 | collects the characters before the first closing bracket or the end |
| Paths.ScanOne | lib/path.ts:34-59 | one turn of the loop leaves the meaning of what is still to be scanned unchanged, or finds a bad index |
| Paths.Tokenize | lib/path.ts:15-62 | the index-based scanner computes the recursive meaning of a path |
| Paths.HasPieces | lib/path.ts:15-62 | every string is made of dots, brackets and stretches of text, of which only the last bracket can be open |
| Paths.PiecesMean | lib/path.ts:15-62 | for every path: it is an error iff some bracket holds no numeral; otherwise, after a leading `$`, each bracket stands for its index, each numeral for an index, each other text for a name, and dots for nothing |
| Paths.PlainSpelling | lib/path.ts:4-16 | a path may be spelled without `$`, and without its first dot iff its first name does not begin with `$` |
| Paths.NumeralsMean | lib/path.ts:23-31 | a numeral is a non-empty string of the ten digits, read in base ten |
| Paths.ParsedIsCanonical | lib/path.ts:15-62 | names that parsing returns are not empty, not numerals, and free of dots and opening brackets |
| Paths.ParsePrint | lib/path.ts:15-62 | parsing inverts printing exactly on canonical token lists |
| Paths.NormalForm | lib/path.ts:15-62 | two accepted spellings mean the same tokens iff their normal forms are equal |
| Documents.GetPath | lib/path.ts:76-106 | the cursor loop computes the lookup of the parsed path; an empty path other than `$` is an error |
| Documents.GetMeans | lib/path.ts:84-105 | a value is found iff it stands at the end of a descent by own members for names and existing elements for indices |
| Documents.Descend | lib/path.ts:123-146 | one descent of the cursor: a child is created where missing, or the cursor is detached |
| Documents.SetPath | lib/path.ts:116-160 | the cursor loop computes the recursive write, detached containers included |
| Documents.GetSet | lib/path.ts:116-160 | a written value is read back iff the shape fits; otherwise the path is not found |
| Documents.FitsMeans | lib/path.ts:123-156 | the shape fits iff everything on the way takes its token: objects any name, arrays their own indices and those below 2^32 - 1; what is absent, or null below the root, gives way to a new container |
| Documents.SetLost | lib/path.ts:116-160 | a write leaves the document as it was iff it runs into an existing value that cannot take the next token, or the value is there already |
| Documents.FitsOrBlocked | lib/path.ts:129-155 | with indices in array range a write fits iff it does not run into such a value |
| Documents.SetSet | lib/path.ts:116-160 | the second of two writes to one path counts |
| Documents.SetGot | lib/path.ts:76-160 | writing back what was read changes nothing |
| Documents.Frame | lib/path.ts:116-160 | a write leaves every diverging path as it was, except that a padded array index becomes found-with-undefined |
| Transforms.ApplyTransform | lib/dag/runner.ts:193-200 | the loop over the mappings is the fold of reads and writes, stopping at the first bad path |
| Transforms.TransformThrows | lib/dag/runner.ts:193-200 | a transform throws iff some mapping's source or target path is unusable |
| Transforms.TransformIsSetAll | lib/dag/runner.ts:193-200 | otherwise it is the sequence of writes of source values, null for missing ones |
| Transforms.DeliversIffCompatible | lib/dag/runner.ts:193-200 | all mappings are delivered for all values iff targets start with a name, stay in array range and pairwise part inside one container, or the one target is the whole document |
| Transforms.TransformDelivers | lib/dag/runner.ts:193-200 | over such targets every target reads as what is found at its mapping's source, or null if nothing is |
| Actions.ExecuteActionWithRetry | lib/dag/runner.ts:373-476 | the attempt loop computes the recursive attempts |
| Actions.RetryLaw | lib/dag/runner.ts:386-467 | on the dispatcher's own replies: attempts go on while the reply asks again (a retryable failure, or any exception but a permanent one) and one is left; the record succeeds iff the last reply is a result that is ok, else carries its message; one sleep per retry, each the random share of the doubled base |
| Actions.BackoffBound | lib/dag/runner.ts:127-130 | a delay lies in [0, base * 2^(attempt-1)) |
| Actions.TotalBackoff | lib/dag/runner.ts:465-466 | sleeps are one fewer than attempts and sum to at most base * (2^(attempts-1) - 1) |
| Actions.NoAttempts | lib/dag/runner.ts:469-475 | nothing is dispatched iff no attempt is allowed, and then the record says that retries are exhausted |
| Transforms.EvaluateMeans | lib/dag/runner.ts:139-191 | the first condition that decides or cannot be read settles a filter; `exists` and `not_exists` ask only whether the path is found; without a deciding condition `all` holds and `any` does not |
| Runner.TriggerEffect | lib/dag/runner.ts:275-284 | the trigger's record takes in the payload and gives out payload and variables; nothing else changes |
| Runner.SkipEffect | lib/dag/runner.ts:268-271 | behind a failure a node is only recorded as skipped, without input or output |
| Runner.FilterEffect | lib/dag/runner.ts:286-309 | a filter passes, stops the run as filtered, or throws, iff its conditions come to that on `payload` and `vars`, which its record takes in; fixed message, no call, no variable |
| Runner.TransformEffect | lib/dag/runner.ts:311-322 | throws iff a path is unusable on `payload` and `vars`; else the writes of its source values become its variable, which the state in its record already shows |
| Runner.ActionEffect | lib/dag/runner.ts:324-345 | throws iff there is no dispatcher; else calls up to the deciding reply, which becomes variable and record, and breaks the pipeline iff it is not a result that is ok |
| Runner.Walk | lib/dag/runner.ts:267-352 | the loop computes the state after all nodes, leaving at the first exception |
| Runner.RunKeeps | lib/dag/runner.ts:267-352 | every prefix of a run along any order of nodes keeps the run invariant: log in order and shaped, exact variables, safe calls |
| Runner.DispatchNeedsAncestors | lib/dag/runner.ts:267-352 | along a topological order, when an action is dispatched every ancestor has succeeded and its output is the variable under its key |
| Runner.DispatchSeesExactVars | lib/dag/runner.ts:311-338 | along any order, a dispatch sees exactly the latest outputs of the transforms and actions run so far, all of which succeeded |
| Runner.FailureShieldsDescendants | lib/dag/runner.ts:268-300 | along a topological order, no node reachable from a failed step is dispatched; each is recorded as skipped |
| Runner.StepLogShape | lib/dag/runner.ts:263-355 | without bad paths and with a dispatcher: one record per node in order, succeeded* (failed skipped*)?, status fixed by the failed step |
| Runner.StatusFromLog | lib/dag/runner.ts:263-355 | a run has succeeded iff every record did, was filtered iff a filter failed, and failed iff an action did |
| Runner.RunWorkflow | lib/dag/runner.ts:222-356 | an unaccepted graph is rejected with its messages before any call; otherwise the sort order is walked; with distinct keys every dispatch has all ancestors done, exact variables and no failure before it |
| RepeatedKeys.LoopMisorders | lib/dag/runner.ts:267-352 | over an exposed node list an action is dispatched before its ancestor has run |
| RepeatedKeys.FourNodesFail | lib/dag/schema.ts:10-18 | nodes keyed t, t, a, b with the trigger second are such a list: some accepted cyclic graph over them misorders, whatever the dispatcher answers |
| RepeatedKeys.AncestorsFirstIff | lib/dag/runner.ts:267-352 | ancestors succeed before every dispatch for every choice of edges iff the node list is not exposed, or has no other action, or nothing can be dispatched there |
| RepeatedKeys.SharedActionRepeats | lib/dag/schema.ts:368-371 | an action that stands for a repeated trigger key is dispatched once for every node that has the key, as long as it succeeds |
| Runner.DeadLetterReport | lib/execute.ts:117-131 | in every failed run exactly one action failed; the report is its record's message and attempt iff it is the last node of the order, else the generic message with one attempt |
| Base32.DigitsRoundTrip | lib/totp.ts:17-53 | decoding the digits of any bytes gives them back; the digits number ceil(8n/5) |
| Base32.EncodeDecode | lib/totp.ts:17-53 | encoding inverts decoding iff the left-over bits are fewer than five and all zero |
| Totp.ShiftInIsWords | lib/totp.ts:22-44 | on the 32 bits themselves, shift left and or is the arithmetic that the accumulator proofs use |
| Totp.ExtractIsWords | lib/totp.ts:25-46 | so is unsigned shift right and mask |
| Totp.PaddingIsWords | lib/totp.ts:30 | and the masked shift that pads the last digit |
| Totp.ShiftInLow | lib/totp.ts:22-45 | shifting in keeps the pending bits right despite overflow, as long as at most twelve are pending |
| Totp.ExtractTop | lib/totp.ts:25-48 | shift and mask extract the top pending bits whatever lies above them |
| Totp.EncodeBase32 | lib/totp.ts:17-33 | the accumulator computes the 5-bit groups of the bit stream, zero-padded; length ceil(8n/5) |
| Totp.DecodeBase32 | lib/totp.ts:35-53 | the accumulator computes the whole bytes of the cleaned text's bit stream |
| Totp.CleanMeans | lib/totp.ts:36 | cleaning keeps the letters of the alphabet in their order and drops all else |
| Totp.RoundTrip | lib/totp.ts:17-53 | decoding the encoded text of any bytes gives the bytes back |
| Totp.CanonicalText | lib/totp.ts:17-53 | re-encoding gives the cleaned text back iff its left-over bits are fewer than five and zero |
| RateLimit.Limiter.EvalScript | lib/ratelimit.ts:15-37 | the script replaces one bucket by its refilled and charged state and leaves all others |
| RateLimit.Limiter.ConsumeBucket | lib/ratelimit.ts:75-90 | the stored tokens, time, expiry and the decision are those of a charged bucket, other buckets are untouched |
| RateLimit.TakeMeans | lib/ratelimit.ts:15-37 | in tokens and rates: refill up to the capacity, a whole token is taken iff there is one, the rest rounded down is what remains |
| RateLimit.TtlMeans | lib/ratelimit.ts:33 | the expiry is the time to fill the bucket at the source's rate, rounded up, plus one |
| RateLimit.HintMeans | lib/ratelimit.ts:88 | the hint is zero while tokens remain, else a minute over the rate, rounded up |
| RateLimit.Limiter.EnforceBuckets | lib/ratelimit.ts:93-103 | buckets are charged in turn up to the first denial, later ones untouched, earlier ones not refunded |
| RateLimit.TakeStaysSane | lib/ratelimit.ts:26-32 | tokens stay within [0, capacity] |
| RateLimit.TokenBudget | lib/ratelimit.ts:15-37 | for arbitrary clocks: admitted plus left is at most capacity plus the refill of the forward jumps |
| RateLimit.RateBound | lib/ratelimit.ts:15-37 | at non-decreasing times: admitted is at most capacity plus the refill of the elapsed time |
| RateLimit.BurstIsCapacity | lib/ratelimit.ts:22-32 | calls at one instant on a fresh bucket are admitted exactly up to the capacity |
| RateLimit.TtlCoversRefill | lib/ratelimit.ts:33-35 | the expiry leaves time to fill the bucket, even on a clock 166 times as fast |
| RateLimit.ExpiryInvisible | lib/ratelimit.ts:33-35 | a bucket that expires decides as one that never does, even on a store's clock 166 times as fast |
| RateLimit.ExpiryInvisibleIff | lib/ratelimit.ts:33-35 | on one shared clock that holds for all calls iff the bucket refills or has no capacity |
| RateLimit.WindowBound | lib/ratelimit.ts:15-37 | with expiry, over any window of a bucket's life |
| RateLimit.NextAdmission | lib/ratelimit.ts:26-32 | after a denial the next call is admitted iff the refill has made up a token |
| RateLimit.DenialHint | lib/ratelimit.ts:86-88 | a denial reports a positive retry time, at least ten thousand times what earns a token |
| RateLimit.RetryGuarantee | lib/ratelimit.ts:75-90 | waiting out the hint guarantees admission iff the bucket refills and has capacity |
| Protocol.RunKeepsInvariant | lib/execute.ts:38-150 | every interleaving of deliveries, steps, crashes and retries keeps the invariant |
| Protocol.AtMostOnce | lib/execute.ts:41-133 | one row and one execution per execution id, one dead letter per run, and only for failed or retrying runs |
| Protocol.AbandonedForever | lib/execute.ts:41-92 | a run without a live owner is never executed, lettered or finished by later events |
| Protocol.CrashLosesRun | lib/execute.ts:81-95 | a crash right after the insert loses the run: redelivery never executes it |
| Protocol.CalmRunsSettle | lib/execute.ts:81-149 | without crashes, exceptions and retries every finished run has failed iff it has its dead letter |
| Protocol.SoloEffect | lib/execute.ts:38-150 | an undisturbed worker ends idle with the sequential effect, executing iff its insert succeeded |
| Execution.Database.FindRunByExecutionId | lib/data/runs.ts:24-28 | finds the row of an execution id iff it belongs to the organization |
| Execution.Database.CreateRun | lib/data/runs.ts:30-54 | inserts a row iff the execution id is free, else changes nothing |
| Execution.Database.UpdateRun | lib/data/runs.ts:56-73 | sets the status of one run |
| Execution.Database.RecordRunFailure | lib/data/runs.ts:230-250 | appends one dead letter for the run |
| Execution.RecordInvalidGraph | lib/execute.ts:58-79 | a failed row and its letter, unless the row exists |
| Execution.Conclude | lib/execute.ts:115-149 | the end of a run sets its status and writes a letter iff it failed |
| Execution.ExecuteWorkflowRun | lib/execute.ts:38-150 | case by case, the result, the row and the letter of one execution; a run's status is that of its log, and the letter of a failed run tells of the failed action iff that is the last node; all this is the effect of an undisturbed worker |
| Csv.ToCsv | lib/csv.ts:9-19 | a reader of the printed text finds the first row's keys and, row by row, the cell under each of them, empty where there is none |
| Csv.EscapeMeans | lib/csv.ts:1-7 | text is printed as it is unless it holds a quote, comma or line break; then it is quoted with its quotes doubled |
| Csv.NoColumns | lib/csv.ts:9-19 | rows without columns print as empty lines |
| Csv.ReadFieldBack | lib/csv.ts:1-7 | any text is read back from its escaped form, whatever follows |
| Csv.ReadRecordBack | lib/csv.ts:14-17 | a record of at least one field is read back |
| Csv.RoundTrip | lib/csv.ts:1-19 | header and all fields are read back iff there is no row or the first row has a column |
| Csv.PrintInjective | lib/csv.ts:1-19 | tables with columns that print alike are equal |
| Schedules.ParseInvertsFormat | lib/scheduler.ts:34-54 | an id decodes to its components iff none holds a colon, and else not at all |
| Schedules.IdsInjective | lib/scheduler.ts:34-36 | ids of colon-free components are unique |
| Schedules.NameDecodes | lib/workers.ts:25-30 | without data the job's name decodes to the components |
| Schedules.UnprefixedParses | lib/workers.ts:28-29 | the text that the data branch builds is decoded iff it passes for an id by accident, and never to its own components |
| Schedules.DataIsNotDecoded | lib/workers.ts:25-33 | a job with a non-empty organization and workflow in its data is never decoded to its own schedule, and not at all for a colon-free organization other than `scr`; any other job is decoded from its name iff colon-free |
| Schedules.PlanMeans | lib/scheduler.ts:168-200 | an upsert is planned iff a schedule trigger of an active workflow with an accepted graph calls for it, with that id, pattern, time zone, job name and data |
| Schedules.PassConverges | lib/scheduler.ts:155-216 | after a pass the managed schedulers are the desired ones, others untouched, found = expected + removed |
| Schedules.SecondPassIdle | lib/scheduler.ts:155-216 | a second pass removes and changes nothing |
| Schedules.SchedulerSet.UpsertNodes | lib/scheduler.ts:175-199 | one workflow's schedule triggers are upserted in order and become desired |
| Schedules.SchedulerSet.UpsertWorkflows | lib/scheduler.ts:168-200 | all workflows with an accepted graph are upserted; the others are passed over |
| Schedules.SchedulerSet.ReconcileSchedules | lib/scheduler.ts:155-216 | the managed schedulers are then exactly those that the triggers call for, each with its trigger's pattern and data; other schedulers are untouched; the counts add up |
| Schedules.SchedulerSet.RemoveWorkflowSchedules | lib/scheduler.ts:93-104 | removes exactly the keys under the workflow's prefix |
| Schedules.PrefixMatchesOwn | lib/scheduler.ts:97-100 | for colon-free ids that prefix matches the workflow's own schedules and no other's |

## Left out

- Documents.SetPath: works on values; a reference is modelled as the place it points to, so sharing between the written value and the result is not captured. Own properties of arrays, which an index of 2^32 - 1 or more creates and no path can see, are not represented.
- Runner.RunWorkflow: durations, labels, the `onStep` callback and the trace ids are not modelled.
- Transforms.ApplyTransform: stores copies where the program stores references. A mapping from `$` or `$.vars` makes the variable contain the variables themselves, so later outputs show up inside it; a mapping into a place below another mapping's target writes into the source value. Object keys are own keys without order; prototype properties are not modelled.
- Execution.ExecuteWorkflowRun: step logs are written without being awaited and with errors swallowed, so no order or completeness holds of them; audit records, event payloads and timestamps are not modelled; organization filters of updates always match because only the owner holds a run id.
- Execution.Database.UpdateRun: sets the status only, not duration and end time.
- Execution.Database.RecordRunFailure: does not write the audit record.
- Schedules.SchedulerSet.ReconcileSchedules: assumes that no other process changes the schedulers or the active workflows during the pass.
- Field-level schema checks: configurations are taken as parsed; only the checks of `validateGraph` are modelled.
- The comparison operators of filters and regular expressions: JavaScript's own rules, represented by an arbitrary function.
- One-time codes: HMAC-SHA1 is opaque, and the window loop around it is a plain search.
- String interpolation: a regular-expression replacement around `getPath`.
- `reconfigureWorkflowSchedule` and `refreshAllSchedules`: the upsert half of the reconciler.
- Run lists, metrics and charts: read-only queries.
- Outbound dispatch, HTTP routes, pages, sessions, encryption and signatures: request plumbing and opaque primitives.
- The choice of execution ids: a SHA-256 prefix; the webhook route mixes the time into it, so deduplication concerns redelivery of one job.
