# Verified models of the rule engine, the cloud agent and the chat client

Dafny models of the parts of the repository where a mistake would be hardest to see, with proofs of what they promise.
`dafny verify dfyconfig.toml` checks everything.

- **Rules and diagrams.** A Boolean rule is compiled to a hash-consed ordered decision diagram with three memo tables
  (`Diagram`, `DiagramMeaning`, `MemoKeys`, `Robdd`), and queries about partly answered rules are read off the
  restricted diagram (`Rules`, `QueryMeaning`, `Ranking`, `DecisionQuery`). Main results: `Canonical`, the memo
  tables agree with plain recursion, and every answer of `Query` is exact for all completions of the answers given.
- **Sessions of the cloud agent.** Runs and their leases over a shared disk (`Fence`, `RunExclusion`), the promise chain
  of one run's lease writes, what it means among the other runs and what renewing achieves (`LeaseChain`,
  `LeaseRefinement`, `LeaseRenewal`), racing senders
  (`NumberClaims`), the command reader (`CommandReader`), the runner's queue with crashes and restarts
  (`RunnerQueue`), and the segmented event log published by one head file (`EventBytes`, `EventFiles`, `EventLog`,
  `EventLoss`).
  Main results: `RunExclusion`, `MessageStartsOnce`, `ClaimsAreDistinctAndGapFree` and `History`, each over all
  executions.
- **Streaming and turns.** The server-sent-event parser with its cursor and bounded reattach (`Sse`, `SseFrame`,
  `SseRoundTrip`, `AiClient`) and the chat turn with messages injected while it runs (`ToolCalls`, `ChatHistory`,
  `ChatTurn`).
- **Texts and archives.** Offsets and positions (`TextPositions`), edits of several files (`Edits`, `Workspace`), and
  ZIP archives with their checksum (`Crc32`, `CrcPolynomial`, `ZipFormat`, `Zip`, `ZipRoundTrip`, `ZipForeign`).

`Wrappers`, `Sequences`, `Sorting` and `Decimals` hold what several of them use.

## How to read it

Code that updates objects, buffers or counters is a class or a method with loops, proved against functions on values;
the laws are lemmas about these functions. A concurrent protocol is a state machine: `Enabled` and `After` describe its
steps, an invariant is kept by every step, and a main result speaks about every execution. What the environment does
(arrivals, failing disk operations, crashes, time, the answers of a server) is left open: nondeterministic values,
steps that may happen at any time, or functions passed in and constrained only by what the design demands.

## Where the code does less than one would expect

- A release gives up run exclusion for a moment. Between its expired lease landing and its fence closing, a write that
  was checked before, or that the fence still lets through, can land after the next run exists. `ReleaseWindow` says
  exactly when, `ReleaseCanOverlap` gives an execution.
- An `inject` command whose turn has ended becomes a turn of its own. It is marked as handled in memory before
  `commands.done` is written, and the queue trusts that mark, so a crash in between makes it run twice
  (`InjectCanStartTwice`); `InjectRunsAgainIff` says exactly when. Message commands do not have this gap
  (`MessageStartsOnce`).
- The fence alone could be armed again after a refusal; that it is not rests on the runner's hook. `HookIsNeeded` says
  exactly when it would be.
- Data lines of a server-sent event lose all leading spaces, not one (`FrameRoundTrip` says when nothing is lost).
- The order of a list of edits matters at one offset. Two insertions come out in reverse list order
  (`InsertionsReverse`), so they can change places only if their texts commute (`InsertionsCommute`); `OrderMatters` says
  exactly when any two orders give the same text. An insertion listed before a replacement at its offset is rejected,
  while the same two edits listed the other way are accepted (`ReplacementComesFirst`, `OrderRejected`).
- After a disk has lost published bytes of the head segment, the numbers of the lost lines are issued again:
  `NumbersIssuedAgain` and `IssuedAgainIff` say which.
- `commands.seq` may be lowered by a slow sender (`CounterCanGoBack`); `CounterGoesBackIff` and `CounterAtRest` say exactly
  when. Order and safety do not depend on it.
- A message injected into a turn is dropped by more than a stop, an error or a cap: an answer that asks for tools without
  naming any ends the turn too, while `done` is emitted with reason `stop` (`LosesAMessage`). `Start` says exactly when
  messages are dropped and which.

## Model

| member | source | states |
|---|---|---|
| Decimals.DecimalInjective | ts-shared/boolean-analysis/src/robdd.ts:24-29 | different node ids and variables print differently |
| Decimals.DecimalThenRest | ts-shared/boolean-analysis/src/robdd.ts:24-29 | a number followed by anything but a digit can be read back, so the separators of a key cannot be confused with its numbers |
| MemoKeys.BindingsKeyInjective | ts-shared/boolean-analysis/src/robdd.ts:24-29 | two sets of bindings have the same key only if they are the same bindings |
| MemoKeys.RestrictKeyInjective | ts-shared/boolean-analysis/src/robdd.ts:122-126 | two calls of `restrict` share a memo key only if they are the same call |
| Diagram.PlainMk | ts-shared/boolean-analysis/src/robdd.ts:45-54 | hash-consing keeps a table ordered, reduced and free of duplicates, and gives a node that tests nothing above `level` |
| Diagram.PlainNeg | ts-shared/boolean-analysis/src/robdd.ts:74-89 | negation without a memo table terminates on ids, keeps the table well-formed and tests nothing earlier than its operand |
| Diagram.PlainApply | ts-shared/boolean-analysis/src/robdd.ts:91-120 | `apply` without a memo table terminates on pairs of ids, keeps the table well-formed and discharges the variable order `mk` does not check |
| Diagram.PlainRestrict | ts-shared/boolean-analysis/src/robdd.ts:122-144 | restriction without a memo table keeps the table well-formed and tests nothing earlier than its operand |
| Diagram.NegStable | ts-shared/boolean-analysis/src/robdd.ts:40-43 | repeated on any table grown since, negation gives the same id and adds no node: what makes a memo entry valid forever |
| Diagram.ApplyStable | ts-shared/boolean-analysis/src/robdd.ts:40-43 | the same for `apply`, across its two recursive calls |
| Diagram.RestrictStable | ts-shared/boolean-analysis/src/robdd.ts:40-43 | the same for `restrict` |
| DiagramMeaning.EvalGrows | ts-shared/boolean-analysis/src/robdd.ts:45-54 | growing the table changes the meaning of no node |
| DiagramMeaning.MkMeaning | ts-shared/boolean-analysis/src/robdd.ts:45-54 | a made node means: the high child if its variable is true, else the low child, also where the node is elided or shared |
| DiagramMeaning.NegMeaning | ts-shared/boolean-analysis/src/robdd.ts:74-89 | the negated node is the negated function, for every assignment |
| DiagramMeaning.ApplyMeaning | ts-shared/boolean-analysis/src/robdd.ts:91-120 | the combined node is the pointwise `and` or `or`, short cuts included |
| DiagramMeaning.RestrictMeaning | ts-shared/boolean-analysis/src/robdd.ts:122-144 | the restricted node is the function with the bound variables overridden |
| DiagramMeaning.Distinguish | ts-shared/boolean-analysis/src/robdd.ts:45-54 | two different ids of a well-formed table disagree under some assignment, which is constructed |
| DiagramMeaning.Canonical | ts-shared/boolean-analysis/src/robdd.ts:45-144 | two ids denote the same Boolean function exactly when they are equal |
| DiagramMeaning.SupportIsExact | ts-shared/boolean-analysis/src/robdd.ts:146-162 | the variables found by walking a diagram are exactly those its function depends on |
| DiagramMeaning.TestsNothingIffTerminal | ts-shared/boolean-analysis/src/robdd.ts:60-62 | a diagram tests nothing exactly when it is a constant |
| RobddTables.NegMemoGrows | ts-shared/boolean-analysis/src/robdd.ts:40-43 | memo entries stay exact when the table grows |
| RobddTables.RestrictMemoHit | ts-shared/boolean-analysis/src/robdd.ts:122-128 | a hit under the string key is the result of this very call |
| RobddTables.Robdd.Mk | ts-shared/boolean-analysis/src/robdd.ts:45-54 | the id and the whole node table are those of the unmemoised operation; the unique table and all memo tables stay exact |
| RobddTables.Robdd.Variable | ts-shared/boolean-analysis/src/robdd.ts:56-58 | `var` gives the node of one variable |
| RobddTables.Robdd.Neg | ts-shared/boolean-analysis/src/robdd.ts:74-89 | memoised negation equals plain recursion, node table included |
| RobddTables.Robdd.Apply | ts-shared/boolean-analysis/src/robdd.ts:91-120 | memoised `apply` equals plain recursion, node table included |
| RobddTables.Robdd.Restrict | ts-shared/boolean-analysis/src/robdd.ts:122-144 | memoised `restrict` under string keys equals plain recursion, node table included |
| RobddTables.Robdd.Support | ts-shared/boolean-analysis/src/robdd.ts:146-162 | the walk that skips visited nodes finds all tested variables and nothing else |
| Rules.MeaningLooksAtVars | ts-shared/viz-expr/viz-expr.ts:123-292 | the truth of a rule depends on its variables only |
| Rules.MattersIsVariable | ts-shared/boolean-analysis/src/decision-query.ts:109-121 | only unanswered variables of the rule can matter |
| Rules.InertIsDropped | ts-shared/boolean-analysis/src/decision-query.ts:100-103 | an inert element of a connective of its own kind can be left out |
| Rules.ExactIsUnique | ts-shared/boolean-analysis/src/decision-query.ts:75-107 | an exact outcome is determined by the rule and the answers |
| Rules.AnswerShrinks | ts-shared/boolean-analysis/src/decision-query.ts:156-166 | an answer settles its own question and opens no new one |
| Rules.NothingMattersIffSettled | ts-shared/boolean-analysis/src/decision-query.ts:109-121 | no variable matters exactly when every completion of the answers agrees |
| Rules.InterviewIsBounded | ts-shared/boolean-analysis/src/decision-query.ts:156-166 | questions about variables that matter number at most as many as matter at first |
| Rules.QuestioningEnds | ts-shared/boolean-analysis/src/decision-query.ts:156-166 | questioning ends within as many answers as the first reported support has entries |
| Rules.ExactOutcomesMakeProgress | ts-shared/boolean-analysis/src/decision-query.ts:156-166 | the support after answering one of its members is a strictly smaller part of the support before |
| Rules.EmptySupportIffDetermined | ts-shared/boolean-analysis/src/decision-query.ts:109-121 | the reported support is empty exactly when the outcome is determined |
| QueryMeaning.RestrictComputes | ts-shared/boolean-analysis/src/decision-query.ts:145-155 | restricting the diagram by levels is answering the rule by names |
| QueryMeaning.ConstantIffSettled | ts-shared/boolean-analysis/src/decision-query.ts:57-61 | the restricted diagram is a constant exactly when every completion gives that outcome |
| QueryMeaning.TestedIffMatters | ts-shared/boolean-analysis/src/decision-query.ts:109-121 | a level is tested exactly when its variable is unanswered and decides the outcome under some completion |
| QueryMeaning.OutcomeIsExact | ts-shared/boolean-analysis/src/decision-query.ts:109-121 | `determined` and `support` read off a diagram are exact for the rule and the answers |
| Ranking.Rank | ts-shared/boolean-analysis/src/decision-query.ts:123-143 | a permutation of the support, sorted by the number of settling answers and then by level |
| Ranking.RankingIsUnique | ts-shared/boolean-analysis/src/decision-query.ts:123-143 | there is one such ranking, whatever sort produces it |
| DecisionQueries.CollectVarOrder | ts-shared/boolean-analysis/src/decision-query.ts:32-55 | the default order holds every variable once, in order of first occurrence; a rule with an `App` is refused |
| DecisionQueries.BuildIndex | ts-shared/boolean-analysis/src/decision-query.ts:72-73 | each name gets the position of its last occurrence in the given order |
| DecisionQueries.RefusalIsExact | ts-shared/boolean-analysis/src/decision-query.ts:75-107 | compilation is refused exactly for rules with an `App` or a variable outside the order |
| DecisionQueries.CompiledQuery.Compile | ts-shared/boolean-analysis/src/decision-query.ts:75-107 | the compiled node computes the rule under every assignment, or the first obstacle is reported |
| DecisionQueries.CompiledQuery.Reduce | ts-shared/boolean-analysis/src/decision-query.ts:89-94 | the fold over the arguments of `And` and `Or` from the neutral element computes the connective |
| DecisionQueries.CompiledQuery.Query | ts-shared/boolean-analysis/src/decision-query.ts:145-175 | for every rule and all partial answers: the outcome, the support and each `impact` entry are exact, and in the ranking a question with more answers that settle the rule stands before one with fewer, ties going by the last place in the variable order |
| DecisionQueries.CompiledQuery.ImpactOf | ts-shared/boolean-analysis/src/decision-query.ts:156-166 | there is an entry for exactly the open questions, each exact for the answers extended either way |
| DecisionQueries.AnswerIsIndependent | ts-shared/boolean-analysis/src/robdd.ts:40-43 | apart from the node count, an answer does not depend on earlier queries |
| DecisionQueries.RankedBySettling | ts-shared/boolean-analysis/src/decision-query.ts:123-143 | what the ranking means in terms of the rule: which answers settle it, and where the variables stand in the order |
| DecisionQueries.CompileDecisionQuery | ts-shared/boolean-analysis/src/decision-query.ts:67-107 | compilation succeeds exactly on the rules it supports, and then every query is exact |
| DecisionQueries.CompileWithDefaultOrder | ts-shared/boolean-analysis/src/decision-query.ts:67-107 | with the default order only a rule with an `App` is refused |
| Fences.RefusalIsForGood | ts-apps/cloud-agent/src/lease.ts:56-110 | after the fence of a runner has refused one write it refuses every later one, whatever leases are written and whenever it is asked |
| Fences.ClosedStaysClosed | ts-apps/cloud-agent/src/lease.ts:103-105 | a closed fence is never armed again |
| Fences.RunnerFenceStaysShut | ts-apps/cloud-agent/src/runner.ts:412-418 | from the construction of a runner's fence on: whatever was called before, after a refusal every later check refuses |
| Fences.HookIsNeeded | ts-apps/cloud-agent/src/lease.ts:86-95 | without the hook that makes the runner stop: after a refusal a later check passes exactly when the fence was never closed and the last lease written in between reaches past the margin |
| Fences.RunnerFencePassesIff | ts-apps/cloud-agent/src/lease.ts:82-105 | a runner's fence lets a write through exactly when every check before came in time for the lease written last, nothing closed it, and the newest lease reaches past the write by the margin |
| Fences.Fence.Check | ts-apps/cloud-agent/src/lease.ts:86-95 | a write passes exactly while the fence is open and the margin before expiry is not reached; the first refusal is remembered and stops the runner |
| Fences.Fence.Renewed | ts-apps/cloud-agent/src/lease.ts:82-84 | the newest lease counts, also when it is shorter, unless the fence is closed |
| RunExclusion.StepKeepsInv | ts-apps/cloud-agent/src/lease.ts:145-178 | every step of every actor keeps: checked writes find the disk lease valid longer than they may take |
| RunExclusion.LandingRunIsLatest | ts-apps/cloud-agent/src/lease.ts:284-300 | a write lands only while its run is the latest |
| RunExclusion.OneRunWrites | ts-apps/cloud-agent/src/lease.ts:82-95 | from any safe state, over any execution with quiet releases, no write of a run lands once a later run exists |
| RunExclusion.RunExclusion | ts-apps/cloud-agent/src/lease.ts:145-178 | run exclusion over all executions from the start, including while a 90 s lease replaces the longer starting lease |
| RunExclusion.LapsedLeaseStaysLapsed | ts-apps/cloud-agent/src/lease.ts:27-30 | a lease that ran out stays out, so reading it and creating the next run need not be one step |
| RunExclusion.ReleaseReachesWindow | ts-apps/cloud-agent/src/lease.ts:274-282 | every release that lands, quiet or not, with any checked writes of its run before and meanwhile, gets to the window that `ReleaseWindow` is about |
| RunExclusion.ReleaseWindow | ts-apps/cloud-agent/src/lease.ts:274-282 | a release gives up exclusion exactly when, as its expired lease lands, another write of the run is in flight or would still pass the fence |
| RunExclusion.ReleaseCanOverlap | ts-apps/cloud-agent/src/lease.ts:274-282 | an execution from the start in which a released run writes after its successor exists |
| RunExclusion.ShutReleaseKeepsExclusion | ts-apps/cloud-agent/src/lease.ts:274-282 | with nothing else in flight and the fence shut, a release keeps exclusion forever |
| LeaseChain.StepKeepsInv | ts-apps/cloud-agent/src/lease.ts:237-300 | every call, microtask, timer and disk event keeps: lease writes of a run follow each other, and behind a settled release the fence is closed or closing it is the very next microtask |
| LeaseChain.SlotIsFree | ts-apps/cloud-agent/src/lease.ts:284-300 | a lease write is checked only when the one before is over and no release is unfinished |
| LeaseChain.Refines | ts-apps/cloud-agent/src/lease.ts:237-300 | every step of the promise chain is a step of the run in `RunExclusion`, or none |
| LeaseChain.ReleaseIsFinal | ts-apps/cloud-agent/src/lease.ts:274-300 | after the expired lease has landed no lease write lands: not of a renewal that was still looking for a newer run, nor of one waiting in the chain, nor of a later one |
| LeaseChain.ReleaseEndsTheLease | ts-apps/cloud-agent/src/lease.ts:274-300 | the same over every execution of a run from its first lease on |
| LeaseChain.LateRenewalQueues | ts-apps/cloud-agent/src/lease.ts:239-252 | a renewal that passed `held` before the release does get behind it in the chain |
| LeaseRefinement.ExecutionRefines | ts-apps/cloud-agent/src/lease.ts:237-300 | every execution of a run that keeps its lease by the promise chain, with time passing, other runs and the other writers of the run, is an execution of `RunExclusion` that ends in the same state |
| LeaseRefinement.ChainKeepsExclusion | ts-apps/cloud-agent/src/lease.ts:237-300 | so no write of any run lands once a later run exists, when releases are quiet |
| LeaseRefinement.BootJoins | ts-apps/cloud-agent/src/lease.ts:145-176 | a run that has just armed its fence starts with an empty chain that matches it |
| LeaseRefinement.RunOfTheChainIsExclusive | ts-apps/cloud-agent/src/lease.ts:145-300 | the same from the very start, for whichever run arms its fence |
| LeaseRenewal.RenewalCounts | ts-apps/cloud-agent/src/lease.ts:82-96 | from the report of a renewed lease until the next report, refusal or close, a write is let through exactly when the fence is open and the margin before that lease runs out is not reached, whatever lease counted before |
| LeaseRenewal.RenewedRunIsNeverRefused | ts-apps/cloud-agent/src/lease.ts:222-253 | a run that is neither superseded nor released, and whose renewals keep up with its leases, is never refused a write |
| LeaseRenewal.ChainRenewalCounts | ts-apps/cloud-agent/src/lease.ts:82-96 | the first for the promise chain |
| LeaseRenewal.RenewingKeepsThePermission | ts-apps/cloud-agent/src/lease.ts:222-300 | the second for the promise chain, from the first lease on |
| NumberClaims.StepKeepsInv | ts-apps/cloud-agent/src/dev.ts:123-149 | every step of every sender, reader and harness keeps the numbering invariant |
| NumberClaims.ClaimsAreDistinctAndGapFree | ts-apps/cloud-agent/src/dev.ts:123-149 | for every interleaving: the created numbers are 1 to some top without gap, each held by one sender, and neither the counter nor what a reader acted on is above the top |
| NumberClaims.WrittenKeepsItsFile | ts-apps/cloud-agent/src/dev.ts:123-149 | over every execution, what a sender has written is never replaced by another |
| NumberClaims.CounterCanGoBack | ts-apps/cloud-agent/src/dev.ts:147-147 | an execution in which the counter file is lowered |
| NumberClaims.CounterGoesBackIff | ts-apps/cloud-agent/src/dev.ts:147-147 | a step lowers the counter exactly when a sender announces a number that the counter has passed |
| NumberClaims.SatisfiedSenderIsDone | ts-apps/cloud-agent/src/dev.ts:147-147 | a sender that finds the counter at or above its number never writes it |
| NumberClaims.CounterGoesBackAfterStaleRead | ts-apps/cloud-agent/src/dev.ts:147-147 | a sender that lowers the counter had read a smaller one, and another sender has announced a larger number since |
| NumberClaims.CounterAtRest | ts-apps/cloud-agent/src/dev.ts:123-149 | when all senders are through, the highest number announced is the highest claimed, and the counter shows it exactly when it was announced last |
| NumberClaims.SeenIsHighest | ts-apps/cloud-agent/src/command-reader.ts:156-166 | readers act on the highest counter they have seen, also after it has gone back |
| CommandReaders.Mark | ts-apps/cloud-agent/src/command-reader.ts:177-188 | exactly the one number is added to the handled ones, and the recorded number moves over everything directly above it |
| CommandReaders.MarkThrough | ts-apps/cloud-agent/src/command-reader.ts:190-194 | for a delivered `n`, exactly the numbers up to `n` are added to the handled ones |
| CommandReaders.CommandReader.MarkHandled | ts-apps/cloud-agent/src/command-reader.ts:177-188 | the reader state and the recorded number follow |
| CommandReaders.CommandReader.ReadOne | ts-apps/cloud-agent/src/command-reader.ts:209-264 | a file that is not readable yet is skipped exactly when it has not been for 15 s, or 60 s with passing read errors, since the first failed read |
| CommandReaders.CommandReader.Poll | ts-apps/cloud-agent/src/command-reader.ts:150-175 | numbers are handed out in order, each once, up to a high-water mark that never falls; what is passed over is handed out or marked handled; an unreadable file is passed over exactly when its grace is over, and otherwise remembered with the time of its first failed read |
| RunnerQueue.StepKeepsInv | ts-apps/cloud-agent/src/runner.ts:461-621 | every step of reader, dispatcher, queue, turn, crash and restart keeps the invariant of the session |
| RunnerQueue.HeadIsNext | ts-apps/cloud-agent/src/runner.ts:587-600 | when the head of the queue starts, everything before it has been handled |
| RunnerQueue.MessageStartsOnce | ts-apps/cloud-agent/src/runner.ts:602-621 | over any number of crashes and restarts a message command starts at most one turn, and only once it is recorded as handled |
| RunnerQueue.RepeatedTurnWasUnrecorded | ts-apps/cloud-agent/src/runner.ts:520-554 | a command starts a second turn only if it is no message and its first turn was not recorded when it started |
| RunnerQueue.UnrecordedIsHandedOutAgain | ts-apps/cloud-agent/src/command-reader.ts:150-207 | after a crash every command not recorded as handled is handed out again (or skipped if unreadable) |
| RunnerQueue.NothingIsDropped | ts-apps/cloud-agent/src/runner.ts:487-518 | while a harness runs, every taken and unhandled command is in its batch, its queue, being dispatched or running |
| RunnerQueue.InjectCanStartTwice | ts-apps/cloud-agent/src/runner.ts:520-554 | an execution in which an inject that became a turn of its own runs unrecorded, and one that starts it again |
| RunnerQueue.CommandsPass | ts-apps/cloud-agent/src/runner.ts:461-621 | from a restart on, every command but `stop` can be dealt with and recorded |
| RunnerQueue.InjectRunsAgainIff | ts-apps/cloud-agent/src/runner.ts:520-554 | in every reachable state in which the turn of an inject runs: some continuation starts it again exactly when `commands.done` does not record it yet |
| RunnerQueue.AbortTakesOut | ts-apps/cloud-agent/src/runner.ts:556-575 | an abort takes the queued turn of its target out of the queue, marks its command, and leaves everything else as it is |
| RunnerQueue.AbortedStartsIff | ts-apps/cloud-agent/src/runner.ts:556-575 | in every reachable state in which an abort finds its turn queued: without a crash that turn never starts, and with crashes it can start exactly if its command is not recorded |
| RunnerQueue.StopEmpties | ts-apps/cloud-agent/src/runner.ts:506-510 | a `stop` empties the queue and handles every command up to its own |
| RunnerQueue.StoppedStartsIff | ts-apps/cloud-agent/src/runner.ts:506-510 | so no turn that was queued starts without a crash, and with crashes exactly if its command is not recorded |
| RunnerQueue.RecordedStopIsFinal | ts-apps/cloud-agent/src/command-reader.ts:188-203 | once `commands.done` has passed a command that is not in the harness, no turn of it starts again |
| RunnerQueue.ShutdownStartsNothing | ts-apps/cloud-agent/src/runner.ts:866-904 | in a harness that shuts down no turn starts but the one that is waiting to be recorded |
| EventBytes.DecodeAfter | ts-apps/cloud-agent/src/event-log.ts:479-492 | reading complete lines and then a torn one gives the lines and the rest |
| EventBytes.MergeEarlyOrLate | ts-apps/cloud-agent/src/event-log.ts:201-229 | merging two adjacent deltas before or after they join the stream comes to the same stream |
| EventBytes.CoalesceKeepsPieces | ts-apps/cloud-agent/src/event-log.ts:201-229 | merging deltas loses, repeats and moves no character and no other event, and leaves no two neighbours that could be merged |
| EventBytes.CoalesceCongruent | ts-apps/cloud-agent/src/event-log.ts:201-229 | streams that are equal up to merging stay equal when the same events follow |
| EventFiles.PublishedSame | ts-apps/cloud-agent/src/event-log.ts:114-165 | bytes beyond the head file change nothing a reader sees |
| EventFiles.AppendExtends | ts-apps/cloud-agent/src/event-log.ts:313-358 | complete lines appended at the head, once published, extend what readers see by these lines |
| EventFiles.RolloverKeeps | ts-apps/cloud-agent/src/event-log.ts:338-345 | moving to a fresh segment keeps what is published |
| EventFiles.LastPublished | ts-apps/cloud-agent/src/event-log.ts:479-492 | the last sequence number is found in the head segment or the ones before it |
| EventLogs.Disk.Append | ts-apps/cloud-agent/src/safe-fs.ts:113-127 | a failed append may leave any prefix of the data |
| EventLogs.EventLog.Open | ts-apps/cloud-agent/src/event-log.ts:114-165 | whatever a crash left behind, the position and the last number are those of the published log |
| EventLogs.EventLog.Emit | ts-apps/cloud-agent/src/event-log.ts:201-229 | what is waiting to be written says what it said before and then the event, character by character; a delta is merged only with an adjacent one of the same kind and conversation |
| EventLogs.EventLog.StartWrite | ts-apps/cloud-agent/src/event-log.ts:239-250 | the pending events become the batch of this write, in order; a closed log takes none |
| EventLogs.EventLog.AppendLines | ts-apps/cloud-agent/src/event-log.ts:329-353 | lines go to the head segment while they fit and to fresh segments otherwise; published bytes are untouched |
| EventLogs.EventLog.Write | ts-apps/cloud-agent/src/event-log.ts:313-358 | a batch is published as a whole with the next numbers, or nothing that readers see changes |
| EventLogs.EventLog.FinishWrite | ts-apps/cloud-agent/src/event-log.ts:239-269 | a failed batch is put back in front of what was emitted meanwhile; emitted and written streams stay the same up to merging |
| EventLogs.Act | ts-apps/cloud-agent/src/event-log.ts:201-358 | one action of a process, or its death at any disk operation, keeps the log valid and only extends what readers have seen |
| EventLogs.History | ts-apps/cloud-agent/src/event-log.ts:114-358 | over any history of emits, timers, failed writes, crashes and reopens, readers see 1, 2, 3 … without gap or repeat, always extending what was seen, in segments within the limit or of one line; what is published is, process after process, a beginning of what was emitted, character by character, and all of it once nothing is left to write |
| EventLoss.NumbersIssuedAgain | ts-apps/cloud-agent/src/event-log.ts:138-149 | when published bytes of the head segment are lost, `open` goes on from the last complete line that is left: the numbers of the lines that are gone are free to be issued again, at least one |
| EventLoss.IssuedAgainIff | ts-apps/cloud-agent/src/event-log.ts:138-149 | a published number is issued again by the next batch exactly when its line is gone and the batch reaches it |
| EventLoss.Reopen | ts-apps/cloud-agent/src/event-log.ts:138-149 | after such a loss readers see exactly the complete lines that are left, and the log goes on from their count |
| SseText.BoundaryIsStable | ts-shared/legalese-agent/src/ai-client.ts:736-752 | later text neither moves nor hides a complete frame boundary, for LF, CRLF and mixtures |
| SseText.BoundaryIsExact | ts-shared/legalese-agent/src/ai-client.ts:735-735 | a boundary is two line ends in a row, each of them LF or CRLF |
| SseText.DrainInParts | ts-shared/legalese-agent/src/ai-client.ts:737-770 | draining the buffer in two goes gives the raw frames and the rest of draining once |
| SseText.TextDrains | ts-shared/legalese-agent/src/ai-client.ts:748-753 | text made of blocks that each end at their first boundary drains to exactly these blocks |
| SseText.CutTextDrains | ts-shared/legalese-agent/src/ai-client.ts:748-753 | text broken off anywhere drains to the first few blocks: a frame cut short is never seen |
| SseText.UnendedDrains | ts-shared/legalese-agent/src/ai-client.ts:737-769 | text whose last block lacks its blank line drains to the raw frames of the others and leaves that block over |
| SseFrames.SplitOfJoin | ts-shared/legalese-agent/src/ai-client.ts:782-796 | splitting joined lines gives the lines back |
| SseFrames.TrimCuts | ts-shared/legalese-agent/src/ai-client.ts:785-789 | what trimming cuts off at both ends is blank, and what it leaves neither starts nor ends with a space |
| SseFrames.SpacesAreThese | ts-shared/legalese-agent/src/ai-client.ts:785-789 | what counts as a space is the white space of ECMAScript |
| SseFrames.ParseIntReads | ts-shared/legalese-agent/src/ai-client.ts:791-792 | an id is read behind spaces and a sign, up to the first character that is no digit |
| SseFrames.ParseIntRefuses | ts-shared/legalese-agent/src/ai-client.ts:791-792 | without a digit there is no id |
| SseFrames.ParseFrame | ts-shared/legalese-agent/src/ai-client.ts:781-798 | the line loop computes the frame: the last event, the last numeric id, the joined data, nothing without data |
| SseFrames.FrameIsReadBack | ts-shared/legalese-agent/src/ai-client.ts:781-798 | what is read from the text of a frame: spaces around the event and before each data line are lost, all else is kept |
| SseFrames.FrameRoundTrip | ts-shared/legalese-agent/src/ai-client.ts:781-798 | so a frame is read back unchanged exactly when there are no such spaces |
| SseRoundTrip.SentIsClean | ts-shared/legalese-agent/src/ai-client.ts:781-798 | the text of a frame holds no blank line, so whichever blank line follows ends it, of LF, CRLF or a mixture |
| SseRoundTrip.StreamRoundTrip | ts-shared/legalese-agent/src/ai-client.ts:724-798 | a stream sent as frames is read as these frames, and any beginning of its text as a beginning of them |
| AiClients.ParseSse | ts-shared/legalese-agent/src/ai-client.ts:724-770 | for every way of cutting the text into chunks, the events and the cursor are those of the whole text |
| AiClients.AboveCursor | ts-shared/legalese-agent/src/ai-client.ts:260-292 | with increasing ids, replay above the cursor is exactly the rest of the stream |
| AiClients.ConnectionYieldsPrefix | ts-shared/legalese-agent/src/ai-client.ts:327-375 | a connection that breaks off anywhere yields the next frames from the first on; one that ends normally yields all |
| AiClients.UnendedYieldsAll | ts-shared/legalese-agent/src/ai-client.ts:764-769 | a response that ends normally without its last blank line gives the frames of the response with it |
| AiClients.DoesNotComplete | ts-shared/legalese-agent/src/ai-client.ts:334-372 | when a stream ends without a normal close, no connection within the budget could complete it |
| AiClients.StreamResilient | ts-shared/legalese-agent/src/ai-client.ts:327-375 | the events are those of an uninterrupted stream up to some frame, none twice and none left out; all of them exactly when one of six connections ends normally after drops alone; at most five reattaches |
| ToolCalls.FirstIdsAre | ts-shared/legalese-agent/src/chat-service.ts:998-1008 | the order of first appearance holds every id once |
| ToolCalls.CollectedOnce | ts-shared/legalese-agent/src/chat-service.ts:998-1008 | however the frames of a call are spread, its id has exactly one entry |
| ToolCalls.FoldedIs | ts-shared/legalese-agent/src/chat-service.ts:963-1008 | which arguments and which name the frames of an id leave behind |
| ToolCalls.FirstIdsInOrder | ts-shared/legalese-agent/src/chat-service.ts:998-1008 | ids are ordered by their first frames |
| ToolCalls.Collect | ts-shared/legalese-agent/src/chat-service.ts:963-1008 | one entry per id in the order of first appearance, with the last arguments that are not empty and the last name that counts among its frames |
| ChatHistory.EveryRoundIsAnswered | ts-shared/legalese-agent/src/chat-service.ts:576-663 | every request behind a tool round starts with one result per distinct call id collected from the answer before, in call order, before any other message, each with what its call returned; no other request holds results; no message that came before a tool round ended waits behind the next request; and every request is the one that may follow: a nudge alone, results alone, or results and the messages of a new sub-turn |
| ChatHistory.JoinedTextsJoin | ts-shared/legalese-agent/src/chat-service.ts:1336-1339 | the joined text consists of the texts that are not empty, in order, with a blank line between neighbours and nothing else |
| ChatHistory.FinalIsLast | ts-shared/legalese-agent/src/chat-service.ts:528-631 | an answer after which the turn cannot go on is the last one, and so is one whose tools throw, or have been run by the time a stop has been asked for |
| ChatHistory.FollowingIsWellFormed | ts-shared/legalese-agent/src/chat-service.ts:270-273 | results followed by the assembled messages answer the calls, in call order, before any user message |
| ChatHistory.MessagesGrow | ts-shared/legalese-agent/src/chat-service.ts:127-150 | two moments have the same arrivals behind them exactly when nothing arrived in between |
| ChatTurns.Turn.Inject | ts-shared/legalese-agent/src/chat-service.ts:127-150 | a message joins the queue of an active turn and is dropped otherwise |
| ChatTurns.Turn.ReadAnswer | ts-shared/legalese-agent/src/chat-service.ts:711-1091 | the finish of the answer and the calls collected from its frames, no calls behind an inner error |
| ChatTurns.Turn.RunStreamIteration | ts-shared/legalese-agent/src/chat-service.ts:711-1091 | the request and what its answer came to are recorded; the calls of the answer are those the next request must bring results for |
| ChatTurns.Turn.RunCalls | ts-shared/legalese-agent/src/chat-service.ts:576-608 | each call has one result, in call order, with what it returned, unless one throws |
| ChatTurns.Turn.RunRound | ts-shared/legalese-agent/src/chat-service.ts:576-631 | the results of the last answer's calls, or the end of the turn: exactly when a tool throws or a stop had been asked for by the time the last call was run |
| ChatTurns.Turn.AfterAnswer | ts-shared/legalese-agent/src/chat-service.ts:489-663 | after an answer the sub-turn is over for the reason the answer gives, or the next request is what is to be fixed behind a clean stop, or exactly the results of its calls, and these only if nothing is queued |
| ChatTurns.Turn.RunSubTurn | ts-shared/legalese-agent/src/chat-service.ts:432-663 | every request answers the calls of the answer before it; the end is the one the last answer calls for, or the results left over are those of its calls |
| ChatTurns.Turn.Drain | ts-shared/legalese-agent/src/chat-service.ts:356-361 | the whole queue is announced, in order |
| ChatTurns.Turn.AfterSubTurn | ts-shared/legalese-agent/src/chat-service.ts:340-372 | after a sub-turn that ends well the turn goes on exactly when somebody has said something, with everything that is queued |
| ChatTurns.Turn.Start | ts-shared/legalese-agent/src/chat-service.ts:170-388 | every request is the one that may follow; the end is the one the last answer, a throwing tool or failed assembly call for, and a turn finishes only with nothing left to fix; what is announced and sent is what arrived before the last drain, in order and each message once, the texts of each batch making up the last message of the request that brings it; a message is dropped exactly when it arrived after that and the turn did not finish normally |
| ChatTurns.LosesAMessage | ts-shared/legalese-agent/src/chat-service.ts:564-574 | an answer that asks for tools but names none loses what is queued, though the turn was neither stopped nor failed nor cut short |
| TextPositions.StartsAre | ts-shared/legalese-agent/src/text-positions.ts:11-23 | the starts are exactly the line starts for any mix of CRLF, LF and lone CR, in order |
| TextPositions.LineStarts | ts-shared/legalese-agent/src/text-positions.ts:11-23 | the loop finds all line starts |
| TextPositions.LineEnd | ts-shared/legalese-agent/src/text-positions.ts:26-33 | stripping back from the next start finds the first terminator of the line |
| TextPositions.PositionAt | ts-shared/legalese-agent/src/text-positions.ts:35-48 | the binary search finds the line whose start was passed last |
| TextPositions.OffsetAt | ts-shared/legalese-agent/src/text-positions.ts:50-57 | positions outside the text are clamped |
| TextPositions.TextInRange | ts-shared/legalese-agent/src/text-positions.ts:60-65 | the text between the two offsets, nothing when they are out of order |
| TextPositions.OffsetRoundTrip | ts-shared/legalese-agent/src/text-positions.ts:35-57 | every offset comes back from its position, except the one inside a CRLF, which comes back as the one before the CR |
| TextPositions.PositionRoundTrip | ts-shared/legalese-agent/src/text-positions.ts:35-57 | a position comes back from its offset exactly when it is one an editor shows |
| TextPositions.PositionsIncrease | ts-shared/legalese-agent/src/text-positions.ts:35-48 | positions are monotone in offsets |
| TextPositions.OffsetsIncrease | ts-shared/legalese-agent/src/text-positions.ts:50-57 | offsets are monotone in positions, valid or not |
| TextPositions.RangesJoin | ts-shared/legalese-agent/src/text-positions.ts:60-65 | neighbouring ranges join without loss |
| Edits.SortKeepsAt | ts-apps/cloud-agent/src/node-workspace.ts:248-248 | sorting keeps the edits at each offset in list order |
| Edits.AcceptedFits | ts-apps/cloud-agent/src/node-workspace.ts:249-257 | what passes the checks of the loop fits: in range, no overlap, at one offset only the first edit removes text |
| Edits.FitsAccepted | ts-apps/cloud-agent/src/node-workspace.ts:249-257 | and what fits passes |
| Edits.OneEdit | ts-apps/cloud-agent/src/node-workspace.ts:258-261 | applying one more edit is replacing one more range of the old text |
| Edits.EditText | ts-apps/cloud-agent/src/node-workspace.ts:246-263 | the new text is the old one with all ranges replaced at once, and the list is rejected exactly when it does not fit |
| Edits.OrderIsIrrelevant | ts-apps/cloud-agent/src/node-workspace.ts:234-263 | with distinct starts the order of the list does not matter |
| Edits.InsertionsReverse | ts-apps/cloud-agent/src/node-workspace.ts:248-261 | two insertions at one offset come out in reverse |
| Edits.OrderMatters | ts-apps/cloud-agent/src/node-workspace.ts:246-263 | two applicable orders of the same edits give the same text exactly when at every offset the new texts there, the last of the list first, join to the same |
| Edits.OrderRejected | ts-apps/cloud-agent/src/node-workspace.ts:246-263 | another order of an applicable list is applicable exactly when no edit that removes text comes behind another one at its offset |
| Edits.InsertionsCommute | ts-apps/cloud-agent/src/node-workspace.ts:248-261 | two insertions at one offset can change places exactly when their texts commute |
| Edits.ReplacementComesFirst | ts-apps/cloud-agent/src/node-workspace.ts:249-257 | an insertion listed before a replacement at its offset is rejected, the same two the other way round are accepted |
| Workspaces.Group | ts-apps/cloud-agent/src/node-workspace.ts:235-240 | each file gets its edits in list order |
| Workspaces.Workspace.ApplyEdits | ts-apps/cloud-agent/src/node-workspace.ts:234-273 | all files get their new texts, or none is written: exactly when some file is missing or its edits do not fit |
| Checksums.FeedIsShifts | ts-apps/vscode/src/sidebar-provider.ts:1354-1361 | feeding message bits one at a time is adding them all first and shifting |
| Checksums.HighBitsMove | ts-apps/vscode/src/sidebar-provider.ts:1363-1369 | the low byte is looked up and the rest moves down: the step of the table method |
| Checksums.LookupFeedsByte | ts-apps/vscode/src/sidebar-provider.ts:1363-1369 | one lookup does the work of eight bits |
| Checksums.CrcTable | ts-apps/vscode/src/sidebar-provider.ts:1354-1361 | the table holds eight shifts of every byte |
| Checksums.Crc32 | ts-apps/vscode/src/sidebar-provider.ts:1363-1369 | the table-driven checksum is the bit-by-bit one |
| CrcPolynomial.ConstantIsGenerator | ts-apps/vscode/src/sidebar-provider.ts:1354-1361 | the constant of the code is the polynomial x^32 + x^26 + … + 1 of CRC-32 without its highest power, bits reversed |
| CrcPolynomial.FeedBitDivides | ts-apps/vscode/src/sidebar-provider.ts:1354-1361 | one bit is one step of the division: multiply by x, add the bit, subtract the polynomial if x^32 comes out |
| CrcPolynomial.ChecksumIsRemainder | ts-apps/vscode/src/sidebar-provider.ts:1363-1369 | the checksum is the CRC-32 of section 8 of RFC 1952: the complemented remainder of the message, its first 32 bits complemented, by that polynomial |
| ZipFormat.ReadBack16 | ts-apps/vscode/src/deployment-install.ts:233-245 | a 16-bit field is read back if its value fits |
| ZipFormat.ReadBack32 | ts-apps/vscode/src/deployment-install.ts:229-245 | a 32-bit field is read back if its value fits |
| ZipFormat.FieldAt | ts-apps/vscode/src/sidebar-provider.ts:1400-1494 | every field stands at the sum of the sizes before it |
| ZipFormat.LocalOffsets | ts-apps/vscode/src/sidebar-provider.ts:1405-1433 | where the fields of a local header (section 4.3.7 of the APPNOTE) stand |
| ZipFormat.CentralOffsets | ts-apps/vscode/src/sidebar-provider.ts:1437-1475 | where the fields of a central header (section 4.3.12) stand |
| ZipFormat.EndOffsets | ts-apps/vscode/src/sidebar-provider.ts:1477-1492 | where the fields of the end record (section 4.3.16) stand |
| ZipFormat.ZipSize | ts-apps/vscode/src/sidebar-provider.ts:1392-1398 | the pre-computed size is the size of the archive |
| ZipArchives.Entries | ts-apps/vscode/src/sidebar-provider.ts:1381-1393 | each entry holds its checksum and the offset its local header will have |
| ZipArchives.SetLocal | ts-apps/vscode/src/sidebar-provider.ts:1405-1433 | a local header, name and content are written behind what is there |
| ZipArchives.SetCentral | ts-apps/vscode/src/sidebar-provider.ts:1437-1475 | so is a central header |
| ZipArchives.CreateZip | ts-apps/vscode/src/sidebar-provider.ts:1371-1495 | the buffer is filled exactly with the archive |
| ZipArchives.ParseStoreZip | ts-apps/vscode/src/deployment-install.ts:225-251 | the walk returns the entries up to the central directory, or the first bad signature or method |
| ZipRoundTrip.LocalHeaderAt | ts-apps/vscode/src/sidebar-provider.ts:1381-1433 | the recorded offset of every file is where its local header stands |
| ZipRoundTrip.CentralHeaderAt | ts-apps/vscode/src/sidebar-provider.ts:1437-1475 | every central entry stands in the directory with that offset in it |
| ZipRoundTrip.ParseRoundTrip | ts-apps/vscode/src/deployment-install.ts:225-251 | `parseStoreZip(createZip(files))` gives the same names and contents in order, for sizes within the header fields |
| ZipForeign.ReadStored | ts-apps/vscode/src/deployment-install.ts:233-247 | a stored entry is read whatever its extra field and its unused fields hold |
| ZipForeign.ForeignArchive | ts-apps/vscode/src/deployment-install.ts:225-251 | stored entries come back in order, with any extra fields; what follows them ends the walk, or fails it with the signature and its offset or with the method |
| ZipRoundTrip.DirectoryRoundTrip | ts-apps/vscode/src/sidebar-provider.ts:1434-1493 | a reader that goes through the end record, the central directory and the local headers, checking checksums, gets the same files |

## Left out

- Validation and shrinking of events: events are records with a size, taken to be within their limits.
- JSON, UTF-8 and protocol validation: lines, frames and commands are read exactly; text is a sequence of characters
  (UTF-16 units in `TextPositions`), file names in archives are the encoded bytes.
- Ids of server-sent events beyond the exact integers of a double; `parseInt` gives unbounded numbers here.
- Timers and retry schedules: when something fires is left open, so every schedule is covered.
- Failing writes of `commands.done`: they are taken to succeed, as the reader loses polled commands until a restart
  otherwise. A crash before such a write reaches the disk is modelled.
- Aborting a turn that already runs: what a stop does to it is in `ChatTurn`, not in `RunnerQueue`.
- Prompt delivery of commands: a counter that went back can delay a command until the next one is sent.
- How many microtasks a promise of a lease write takes to settle: any number. `LeaseChain` is about runs whose fence has the
  runner's hook.
- A rename that reports failure after it happened: the disk of `EventLog` reports renames truthfully.
- Lost bytes other than those at the end of the head segment, and the log of a process that goes on behind a torn segment:
  `EventLoss` follows a disk that loses bytes through the next `open`, the disk of `EventLog` keeps what was appended.
- Time in `RunExclusion` is one clock for all processes; that a checked write lands within the fence margin of its
  check is an assumption, as in the design.
- `mk` with an arbitrary variable order: the order is a precondition, discharged at every call.
- Memo keys of `neg`, `apply` and the unique table are structured values; only the string key of `restrict` is modelled
  as text.
- Interpretation of frames into events: any function from frames to event sequences, so JSON errors inside a frame are
  its business.
- A server that ends a response normally in the middle of its text: a normal end is taken to come after the whole text.
- Attachments, mentions, titles, persistence and display blocks of a chat turn; of a drained batch the joined text is
  modelled.
- Paths, symbolic links and failing file writes in `applyEdits`: the checks come before every write, the writes succeed.
- Archives whose names, contents or offsets exceed their header fields: the values are truncated as in the code, and the
  round trips ask for sizes that fit.
- Key renewal, git, permissions, pending interactions, plugins and the other tools of the agent: outside the model or
  easy.
