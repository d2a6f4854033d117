# Verified models of the F Prime flight framework and its metrics

A Dafny model of six parts of the repository, with proofs of what each is for:

| part | modules |
|---|---|
| Issue and plan metrics: event logs replayed into per-day deltas and daily series, make-target expansion, the component history, gates and plan series | `Ledger`, `IssueModel`, `IssueRecount`, `IssueMetrics`, `MakeTargets`, `ComponentHistory`, `PlanValue`, `PlanData` |
| Lock-free once-initialisation of the remote handle | `HandleOnce` |
| Receive buffers of the serial driver | `SerialPool`, `StaleReturns` |
| CFDP file checksum (section 4.2 of CCSDS 727.0-B-5) | `CfdpChecksum`, `FileTransfer` |
| Serialize buffers, file packets, telemetry and log packets | `Words`, `Wire`, `SerialBuffers`, `BufferRuns`, `Fields`, `FilePackets`, `ComPackets` |
| Truncating strings, time tags, chunked file reading | `TextBuffers`, `TimeTags`, `FileReading` |

Objects that the source updates in place are classes (`ProjectMetrics`, `MakeExpander`, `LinuxSerialDriver`, `Checksum`,
`SerialBuffer`, `ComPacket`, `StringBase`, `TimeTag`). Their methods are proved against functions on values (the recount of
an issue, the sum of the words of a file, the parse of some bytes), and the lemmas are about those functions. The two
concurrent parts are state machines over atomic steps, with theorems about every state of every run.
`dafny verify dfyconfig.toml` checks everything.

## Findings

- **Daily series.** One event moves the counts as a recount moves exactly when it changes the issue's state or concerns no
  counted label (`CountsFaithfulIff`); otherwise it is counted once more, as when a label is added twice
  (`RepeatedLabelCountsTwice`). For histories in date order, a series is the recount on every day if and only if
  on every day these errors cancel out (`SeriesExactIff`). The series start at the first creation day from zero, so each entry is the recount of its day minus
  the recount of the day before the series starts; that is nothing when no event precedes its issue's creation, and then
  the entries are the recount itself (`ExactIsRecount`).
- **Earned value.** Closing takes back the share of every held label ending in `%`, but an open issue earned a share only
  for labels of plain digits. A label such as `2.5%` therefore loses value on closing (`StrayPercentLosesValue`);
  `EarnedFaithfulIff` has the exact condition for one event. A `%` label that is not a number raises an error when a valued issue holding it is closed.
- **Closing without a closed event.** The fallback at `metrics/projectmetrics.py:375-376` leaves out the name of the plan
  task, so its arguments are one place off and it posts nothing; it is not part of the model.
- **Plan gates.** A repeated gate name is looked up twice and finds the last gate of that name both times. The
  contributions of a task add up to its value times the last percentage if and only if the task is worth nothing or the
  differences this makes cancel out (`ContributionsIff`); they always do for distinct names, may do for repeated ones
  (`RepeatedGateCanAgree`), and need not (`RepeatedGateOvercounts`). The last entry of the plan series is off by the same
  differences, summed over all lines of the plan (`PlanSeries`). A blank first gate discards the percentages of the gates
  after it. A percentage above 1 is read as a percentage of 100, one up to 1 as a fraction.
- **Make targets.** A reference back to a target being expanded ends in an error, because nothing is returned to be merged.
  An expansion succeeds exactly when every chain of references stays defined and never repeats a target.
- **Serial driver.** With clients that return what they own, the assertion of the handler can fail exactly when more buffers
  circulate than there are slots (`AssertsIff`). A buffer that arrives with SER_NO_BUFFERS is stale and passes no
  ownership: each one given back counts as one buffer more (`LooseAssertsIff`).
- **Checksum.** For the few lengths next to 2^32 whose last word ends beyond 32 bits, and only for those, the loop bound
  wraps around and the loop takes a word beyond the chunk (`OverrunIff`).
- **Byte blocks.** The stored length has 16 bits while all bytes are written, so a block is read back exactly when it is
  shorter than 65536 bytes (`BlockRoundTripIff`).
- **Strings.** Comparing with a character pointer only looks at the string's own length: the answer is equality unless the
  string is a proper prefix of the other, which then compares equal (`PrefixIsEqualityIff`, `PrefixComparesEqual`).
- **Telemetry and log packets.** The assertion marked as one that should not fail holds exactly when the value left in the
  buffer fits the value buffer, as it does for every com buffer (`DeserializeValue`, `ComBufferFits`).
- **CRC of a file.** The signed 32-bit offset lets files of less than 2 GiB be read to their end, and makes all others fail.
- **Hash of a file.** The two assertions after the loop hold exactly when the reads that return data are at most the file
  size over 256, plus one, as a signed 32-bit number. Short reads break them (`ShortReadsTrip`), full reads from 512 GiB on
  (`FullReadsHold`).

## Model

| member | source | states |
|---|---|---|
| IssueModel.CountsFaithfulIff | metrics/projectmetrics.py:524-649 | One event moves every created and closed count as the recount moves if and only if it changes the issue's state or concerns no counted label |
| IssueModel.StepErrors | metrics/projectmetrics.py:575-648 | Every event moves the counts by the change of the recount plus an error, which only events that change nothing make |
| IssueModel.EarnedFaithfulIff | metrics/projectmetrics.py:561-571 | One event moves the progress by the change of the issue's worth if and only if the guard on repeated events and on '%' labels without plain digits holds |
| IssueModel.LeftOutIff | metrics/projectmetrics.py:436-461 | An issue is left out if and only if its milestone is excluded, or not included while not all are, or a label of it, renamed if mapped, is excluded |
| IssueModel.DecimalRead | metrics/projectmetrics.py:561-564 | Reading the decimal text of a number gives the number |
| IssueModel.AllDigitsIff | metrics/projectmetrics.py:561 | Plain digits are one or more of the characters 0 to 9 |
| IssueModel.WrittenPercent | metrics/projectmetrics.py:561-571 | A label n% is worth n hundredths of a value |
| IssueModel.WorthWritten | metrics/projectmetrics.py:610-637 | A closed issue is worth its value, an open one labelled n% that many hundredths of it, an unlabelled open one nothing |
| IssueModel.WrittenPercentEarns | metrics/projectmetrics.py:561-637 | Labelling n% earns value * n / 100, unlabelling takes it back, closing earns the rest |
| IssueRecount.CountsRefineRecount | metrics/projectmetrics.py:487-649 | For guarded histories in date order, what is posted for any range of days is the change of the recount between the ends of the range |
| IssueRecount.CountsWithErrors | metrics/projectmetrics.py:487-649 | For every history in date order, what is posted for a range of days is the change of the recount plus the errors of those days |
| IssueRecount.EarnedRefinesRecount | metrics/projectmetrics.py:561-637 | Likewise for progress: the posted amounts are the change of the issue's worth, through any closing and reopening |
| IssueRecount.CreditIsWorth | metrics/projectmetrics.py:610-637 | After its history an issue has credited its task with its full value if closed, with the held percentages of it if open |
| IssueRecount.LabelTotalsRefineRecount | metrics/projectmetrics.py:392-419 | Summed over guarded issues, created and closed amounts of a label are the changes of the number of issues, and closed issues, carrying it |
| IssueRecount.LabelTotalsWithErrors | metrics/projectmetrics.py:392-419 | Summed over issues in date order they are these changes plus the errors of all issues |
| IssueRecount.OverallTotalsRefineRecount | metrics/projectmetrics.py:352-358 | The overall amounts are the issues created and the change of the number of closed ones, plus those of a label itself called "Overall" |
| IssueRecount.OverallTotalsWithErrors | metrics/projectmetrics.py:352-358 | The same for the overall counts of any issues in date order |
| IssueRecount.ErrorsByDay | metrics/projectmetrics.py:392-419 | The errors of every stretch from the first day on cancel out if and only if those of every single day do |
| IssueRecount.SelectedCount | metrics/projectmetrics.py:349-350 | Each issue is replayed as often as it is there, unless it is left out |
| IssueRecount.TotalEarnedRefinesRecount | metrics/projectmetrics.py:423-432 | Summed over all issues, posted progress is the change of their total worth |
| IssueRecount.TaskCreditIsWorth | metrics/projectmetrics.py:571 | The current value of a task is what its issues are worth after their histories |
| IssueRecount.NothingBeforeFirstEvent | metrics/projectmetrics.py:498-499 | Before any event no issue carries a label, is closed, or is worth anything |
| IssueMetrics.CreditConserves | metrics/projectmetrics.py:565-571 | Posting to a day and crediting a task together keep the sum of all progress equal to the sum of all current values |
| IssueMetrics.ProjectMetrics.BumpCreated | metrics/projectmetrics.py:575-580 | Exactly the totals of that label over ranges containing that day move, whether or not the entries existed |
| IssueMetrics.ProjectMetrics.BumpClosed | metrics/projectmetrics.py:640-648 | The same for closed counts; created counts are untouched |
| IssueMetrics.ProjectMetrics.PostProgress | metrics/projectmetrics.py:565-571 | Day and task move by the same amount, keeping progress conserved |
| IssueMetrics.ProjectMetrics.ProcessIssueLabelEvent | metrics/projectmetrics.py:524-584 | The label set changes by the mapped name; a label n% on an open valued issue moves its day and its task by value * n / 100; all count totals, progress and credit move as one label event prescribes |
| IssueMetrics.MovedByPercent | metrics/projectmetrics.py:561-573 | What the handler posts for a label n% is value * n / 100, up or down |
| IssueMetrics.ProjectMetrics.ProcessHeldLabel | metrics/projectmetrics.py:627-648 | A held '%' label takes its share back, any other is counted as closed; fails exactly on an unreadable number |
| IssueMetrics.ProjectMetrics.PostOverallClose | metrics/projectmetrics.py:610-622 | The part of a closing that concerns no label |
| IssueMetrics.ProjectMetrics.ProcessIssueCloseEvent | metrics/projectmetrics.py:586-649 | In whatever order the held labels are visited, the books move as one closing or reopening prescribes |
| IssueMetrics.ProjectMetrics.ProcessEvent | metrics/projectmetrics.py:502-521 | Every event advances the recounted state and posts its deltas |
| IssueMetrics.ProjectMetrics.ProcessIssueEvents | metrics/projectmetrics.py:487-522 | The final labels and open flag are those of the recount, and the books hold the sums of the whole history |
| IssueMetrics.ProjectMetrics.ProcessIssues | metrics/projectmetrics.py:346-367 | Exactly the included issues are posted; progress and current values agree |
| IssueMetrics.ProjectMetrics.AppendDay | metrics/projectmetrics.py:394-419 | Every label's series grows by the running total of the day |
| IssueMetrics.ProjectMetrics.GenerateDailySeries | metrics/projectmetrics.py:381-421 | One entry per consecutive day from the first creation day to today, each the prefix sum of the deltas |
| IssueMetrics.ProjectMetrics.GenerateProgressSeries | metrics/projectmetrics.py:423-432 | One entry per day from the first progress day on, each the prefix sum of the progress |
| IssueMetrics.SeriesExactIff | metrics/projectmetrics.py:381-421 | A key's NEW, DONE and OPEN agree with the recount on every day if and only if on every day the errors of that day's events cancel out |
| IssueMetrics.SeriesExact | metrics/projectmetrics.py:381-421 | This for all ordinary labels and the overall counts; guarded histories agree, counted from the day before the series starts |
| IssueMetrics.ExactIsRecount | metrics/projectmetrics.py:381-421 | When nothing happened before the first day, NEW, DONE and OPEN are the recounted numbers of issues carrying the label, closed and carrying it, open and carrying it |
| IssueMetrics.NoneBeforeFirstDay | metrics/projectmetrics.py:386-389 | Nothing did when no event precedes its issue's creation, as the series starts at the first creation |
| IssueMetrics.SeriesOfReplayed | metrics/projectmetrics.py:381-421 | The three statements about the series, for the books after the replay |
| IssueMetrics.ProgressExact | metrics/projectmetrics.py:423-432 | From the first progress day on, the running total is what all issues are worth at the end of the day |
| IssueMetrics.ProgressAllExact | metrics/projectmetrics.py:423-432 | The whole progress series is the daily worth of the issues |
| IssueMetrics.ProjectMetrics.GenerateIssueData | metrics/projectmetrics.py:333-434 | The whole computation: the dates, which series are the recount, exact progress, conserved and exact current values, and the exact error condition |
| IssueMetrics.RepeatedLabelCountsTwice | metrics/projectmetrics.py:575-578 | A history whose series disagrees with the recount |
| IssueMetrics.StrayPercentLosesValue | metrics/projectmetrics.py:630-637 | A closed issue worth 100 that is credited with 97.5 |
| Ledger.CountTotalAfterBump | metrics/projectmetrics.py:575-580 | Adding to one day moves exactly the totals over ranges containing it |
| Ledger.Earliest | metrics/projectmetrics.py:389 | The first of the sorted days |
| Ledger.SetSumTakeOut | metrics/projectmetrics.py:627 | The sum over the held labels does not depend on the order of the visit |
| MakeTargets.ExpandableStep | metrics/projectmetrics.py:274-286 | A target can be expanded exactly when it is defined, not on the stack, and all it refers to can be expanded |
| MakeTargets.ReachesStep | metrics/projectmetrics.py:283-288 | The reachable plain names, one reference at a time |
| MakeTargets.WrittenReference | metrics/projectmetrics.py:284-286 | $(name) refers to name: the first two characters and the last one are dropped |
| MakeTargets.ReferenceIff | metrics/projectmetrics.py:284 | References begin with a dollar sign and an opening parenthesis |
| MakeTargets.ResolvedNames | metrics/projectmetrics.py:274-275 | A name listed under DEPLOYMENTS stands for the name with _MODULES behind it, any other for itself |
| MakeTargets.ListedIsReached | metrics/projectmetrics.py:283-288 | Plain names listed by a target, or by what its $(inner) stands for, are reached |
| MakeTargets.ReferencesDefined | metrics/projectmetrics.py:283-286 | In a target that can be expanded, what each $(inner) stands for is defined |
| MakeTargets.FailingReference | metrics/projectmetrics.py:286 | A cycle or an undefined target behind a reference is one of the target itself |
| MakeTargets.MakeExpander.ExpandRecursive | metrics/projectmetrics.py:262-291 | On every finite graph the recursion ends; it succeeds exactly when no walk repeats a target or leaves the dictionary, adds exactly the reachable plain names, and restores the stack |
| MakeTargets.ExpandTarget | metrics/projectmetrics.py:262-291 | The top-level call returns exactly the reachable plain names, or an error with a walk that explains it; among them the target's own, and those that inner, or inner_MODULES for a deployment, lists for each $(inner) |
| ComponentHistory.Kept | metrics/projectmetrics.py:959-961 | All stored rows are kept but a last one dated today |
| ComponentHistory.RebuildHistory | metrics/projectmetrics.py:958-989 | Every stored row but a last one of today survives with its values and new columns at zero, the current totals follow, order is kept |
| ComponentHistory.RebuiltCells | metrics/projectmetrics.py:975-981 | The cells of the rows that survive |
| ComponentHistory.LatestRow | metrics/projectmetrics.py:926-932 | The reference: no later row is dated on or before the day |
| ComponentHistory.InsertDay | metrics/projectmetrics.py:927-932 | All columns grow together, repeating the value before |
| ComponentHistory.FillEnd | metrics/projectmetrics.py:925-934 | When the days pass today: a full range exactly for strictly increasing rows, with the values of the latest rows |
| ComponentHistory.FillGaps | metrics/projectmetrics.py:923-934 | The loop never reads past the last row and yields every day once if and only if the rows were strictly increasing; every value is that of the latest row |
| ComponentHistory.LatestUnchanged | metrics/projectmetrics.py:958-989 | Adding or replacing today's row leaves the latest row of every earlier day |
| ComponentHistory.PastOf | metrics/projectmetrics.py:923-934 | On every day before today a stored column carries the value of the latest stored row, a new one 0 |
| ComponentHistory.TodayTotals | metrics/projectmetrics.py:983-989 | Today's cells are the totals |
| ComponentHistory.FillRebuilt | metrics/projectmetrics.py:915-934 | A rebuilt history laid out by column and filled |
| ComponentHistory.FillHistory | metrics/projectmetrics.py:913-936 | Every day from the first stored row to today is there; before today stored columns carry the latest stored row and new ones 0, today's are the current totals |
| ComponentHistory.AddComponent | metrics/projectmetrics.py:905-909 | The items of one component are added, in whatever order |
| ComponentHistory.CurrentTotals | metrics/projectmetrics.py:901-909 | Exactly the items that some component counts, each summed over all components |
| ComponentHistory.ProcessComponentTotals | metrics/projectmetrics.py:893-936 | From component data and stored rows to filled columns of equal length: the past carries the latest stored rows, today the sums over all components |
| PlanValue.ProcessPlanTask | metrics/planvalidator.py:124-185 | Fails exactly on an unreadable percentage; otherwise the dictionary holds the last gate of each name |
| PlanValue.WhereGatesEnd | metrics/planvalidator.py:168-169 | A gate ends less than a day before its fraction of the task has passed and never after, at the start for 0 and at the end for 1 |
| PlanValue.EndedIff | metrics/planvalidator.py:169 | It has ended by a day exactly when its fraction has passed before the next day |
| PlanValue.LaterGatesEndLater | metrics/planvalidator.py:169 | Larger fractions do not end earlier |
| PlanValue.PercentOrFraction | metrics/planvalidator.py:160-163 | Numbers above 1 are hundredths, others fractions |
| PlanValue.LatestStep | metrics/planvalidator.py:174-184 | A later gate of the same name replaces the earlier one |
| PlanValue.KeptGate | metrics/planvalidator.py:152-174 | Every listed name finds the gate of the last step of that name |
| PlanValue.ContributionsAddUp | metrics/planvalidator.py:165-172 | For every task line the contributions add up to the value times the last percentage plus the overcount of its names |
| PlanValue.ContributionsIff | metrics/planvalidator.py:165-172 | They are the value times the last percentage if and only if the value or the overcount is zero |
| PlanValue.DistinctOvercount | metrics/planvalidator.py:152-174 | Distinct names are never overcounted |
| PlanValue.ContributionsTelescope | metrics/planvalidator.py:165-172 | For distinct gates the contributions add up to the value times the last cumulative percentage |
| PlanValue.GatesTile | metrics/planvalidator.py:168-169 | Distinct gates start with the task and each where the one before ended |
| PlanValue.RepeatedGateOvercounts | metrics/planvalidator.py:152-174 | A task of value 10 with a repeated gate name contributes 16 |
| PlanValue.RepeatedGateCanAgree | metrics/planvalidator.py:152-174 | A repeated gate name that is not overcounted |
| PlanValue.EndedTask | metrics/projectmetrics.py:148-152 | Once all gates of a task have ended, the plan counts its value times the last percentage, plus the overcount |
| PlanValue.EndedTaskIsPlanned | metrics/projectmetrics.py:148-152 | With distinct gates that is the value times the last percentage |
| PlanValue.ProcessedGatesKnown | metrics/planvalidator.py:152-174 | Every listed gate can be looked up |
| PlanValue.Sorted | metrics/projectmetrics.py:159 | The days of the dictionary in strictly increasing order |
| PlanValue.PostContribution | metrics/projectmetrics.py:149-156 | Totals move on that day only; the day before has an entry |
| PlanValue.PostTask | metrics/projectmetrics.py:144-158 | The gates of a task move the totals by what ends in range; the expected value is what ended by today |
| PlanValue.PostPlan | metrics/projectmetrics.py:144-158 | In any order of the tasks the totals are the sums over all tasks |
| PlanValue.GapTotal | metrics/projectmetrics.py:159-160 | Between two entries of the series nothing is added |
| PlanValue.RunningSums | metrics/projectmetrics.py:162-165 | The in-place running sum holds the prefix totals of the sorted days |
| PlanValue.SeriesIsPlanned | metrics/projectmetrics.py:142-166 | At every entry, and up to the next, the series is the sum of all contributions ending by that day |
| PlanValue.GeneratePlanMetrics | metrics/projectmetrics.py:135-166 | The series is exact, and the expected values of the tasks sum to what is planned by today |
| PlanData.SomeStep | metrics/planvalidator.py:104-111 | Every line yields at least one gate |
| PlanData.AddedTask | metrics/planvalidator.py:110-111 | One task more adds its value times its last percentage, and its excess |
| PlanData.GeneratePlanData | metrics/planvalidator.py:93-122 | Lines with invalid dates are skipped; it fails exactly on a repeated task name or an unreadable number; otherwise every line has become the task of its name |
| PlanData.DistinctGatesNoExcess | metrics/planvalidator.py:152-174 | Lines whose gate names differ have no excess |
| PlanData.EndedPlan | metrics/projectmetrics.py:144-158 | Once every gate has ended, the plan counts what the gate lists look up |
| PlanData.LastEntry | metrics/projectmetrics.py:159-166 | The last entry of the series comes after all gates |
| PlanData.GatesLine | metrics/planvalidator.py:104-108 | A line without gates gets a blank complete one, an odd one a complete last gate |
| PlanData.TaskIsLine | metrics/planvalidator.py:150-184 | What the plan counts for a task by a day is the sum of value times increment over the gates of its line whose fraction has passed |
| PlanData.PlannedIsLines | metrics/projectmetrics.py:142-166 | What a loaded plan counts by a day, in terms of its lines |
| PlanData.EntriesAreLines | metrics/projectmetrics.py:142-166 | Every entry of the series, up to the next, in terms of the lines |
| PlanData.TwoGates | metrics/planvalidator.py:150-184 | A task of value 10 on days 0 to 100 with gates at 20% and 100% counts 0, 2 from day 20 and 10 from day 100 on |
| PlanData.NoGates | metrics/planvalidator.py:104-106 | A line without gates counts its value from its end on |
| PlanData.BlankGates | metrics/planvalidator.py:147-152 | Blank gates are skipped, and a blank first one discards the percentages behind it |
| PlanData.PlanSeries | metrics/planvalidator.py:93-185 | From the lines of a plan to its series: every entry is the sum of what the lines have contributed by its day, the expected values likewise by today, and the last entry the sum of value times last percentage, plus the excess of repeated gate names |
| HandleOnce.StepOwnership | HEXREF/Rpc/hexref_stub.c:495-510 | A caller's own handle is open, unpublished and nobody else's; nothing else is open but the published one |
| HandleOnce.StepAccounting | HEXREF/Rpc/hexref_stub.c:440-446 | Openings are those still open and those closed once; the published handle is never closed |
| HandleOnce.StepResults | HEXREF/Rpc/hexref_stub.c:495-510 | A finished caller holds the published handle unless its own open failed |
| HandleOnce.StepInv | HEXREF/Rpc/hexref_stub.c:440-510 | Every step of any caller keeps all of this, and a published handle stays |
| HandleOnce.RunInv | HEXREF/Rpc/hexref_stub.c:440-510 | Every state of every interleaving of any number of callers |
| HandleOnce.PublishedOnce | HEXREF/Rpc/hexref_stub.c:495-510 | The static handle changes at most once |
| HandleOnce.ReturnedHandle | HEXREF/Rpc/hexref_stub.c:495-510 | What a caller returned is -1 exactly after its own failed open, else the handle published then and ever after, open and never closed |
| HandleOnce.LateCaller | HEXREF/Rpc/hexref_stub.c:495-498 | A caller that arrives after publication never opens, closes or fails, and returns that handle |
| HandleOnce.LateRecheck | HEXREF/Rpc/hexref_stub.c:505-509 | A caller that rechecks after publication closes its own handle without a swap and returns the published one |
| HandleOnce.AloneRun | HEXREF/Rpc/hexref_stub.c:495-510 | An uninterrupted call returns the handle that is there without opening, or opens, publishes and returns one, or -1 if that fails; it closes nothing |
| HandleOnce.Quiescence | HEXREF/Rpc/hexref_stub.c:440-510 | When all have returned only the published handle is open and every other opening was closed exactly once |
| HandleOnce.NeverBlocked | HEXREF/Rpc/hexref_stub.c:495-510 | A caller can always take its next step |
| HandleOnce.RunsAreShort | HEXREF/Rpc/hexref_stub.c:495-510 | n callers finish within 6n steps |
| SerialPool.LinuxSerialDriver.constructor | Drv/LinuxSerialDriver/LinuxSerialDriverComponentImplCommon.cpp:27-32 | No buffer waits after construction |
| SerialPool.LinuxSerialDriver.ReadBufferSend | Drv/LinuxSerialDriver/LinuxSerialDriverComponentImplCommon.cpp:44-68 | The buffer goes into the first free slot; the assertion fails exactly when there is none, and then nothing changed |
| SerialPool.LinuxSerialDriver.TakeBuffer | Drv/LinuxSerialDriver/LinuxSerialDriverComponentImpl.cpp:377-390 | The first waiting buffer is taken and its slot freed; with none, slots and held buffer stay |
| SerialPool.WaitingUpdate | Drv/LinuxSerialDriver/LinuxSerialDriverComponentImplCommon.cpp:58-63 | Changing one slot changes the waiting buffers by that slot's content |
| SerialPool.WaitingCount | Drv/LinuxSerialDriver/LinuxSerialDriverComponentImplCommon.cpp:53-66 | No slot is free exactly when as many buffers wait as there are slots |
| SerialPool.StepConserves | Drv/LinuxSerialDriver/LinuxSerialDriverComponentImpl.cpp:373-457 | Supplying, taking, timing out, delivering and quitting never create or lose a buffer |
| SerialPool.Conservation | Drv/LinuxSerialDriver/LinuxSerialDriverComponentImpl.cpp:373-457 | In every run slots, reader and client together hold exactly the supply |
| SerialPool.ExactlyOnePlace | Drv/LinuxSerialDriver/LinuxSerialDriverComponentImpl.cpp:373-457 | A buffer supplied once is always in exactly one place |
| SerialPool.ReadOutcomes | Drv/LinuxSerialDriver/LinuxSerialDriverComponentImpl.cpp:409-456 | A read can time out, deliver data, or deliver an error |
| SerialPool.QuitsReading | Drv/LinuxSerialDriver/LinuxSerialDriverComponentImpl.cpp:410-440 | A reader told to quit while reading delivers nothing any more |
| SerialPool.NeverAsserts | Drv/LinuxSerialDriver/LinuxSerialDriverComponentImplCommon.cpp:66 | With no more buffers than slots the assertion never fails |
| SerialPool.Flood | Drv/LinuxSerialDriver/LinuxSerialDriverComponentImplCommon.cpp:66 | With more, some run makes it fail |
| SerialPool.StaleReturnAsserts | Drv/LinuxSerialDriver/LinuxSerialDriverComponentImpl.cpp:392-400 | Giving back the buffer of one SER_NO_BUFFERS report adds a buffer, after which a full supply can make the assertion fail |
| StaleReturns.LooseRunInv | Drv/LinuxSerialDriver/LinuxSerialDriverComponentImpl.cpp:373-457 | With stale returns, slots, reader and client hold as many buffers as were supplied and given back stale |
| StaleReturns.HeldIsLast | Drv/LinuxSerialDriver/LinuxSerialDriverComponentImpl.cpp:385-396 | What is reported when no buffer waits is the one the reader last held |
| StaleReturns.LooseFlood | Drv/LinuxSerialDriver/LinuxSerialDriverComponentImplCommon.cpp:66 | A client with own or stale buffers for more slots than are free can make the assertion fail |
| StaleReturns.LooseAssertsIff | Drv/LinuxSerialDriver/LinuxSerialDriverComponentImplCommon.cpp:66 | With at most n stale returns the assertion can fail if and only if the supply and n are more than the slots |
| SerialPool.AssertsIff | Drv/LinuxSerialDriver/LinuxSerialDriverComponentImplCommon.cpp:66 | The assertion can fail if and only if more buffers are supplied than there are slots |
| CfdpChecksum.NarrowMod | CFDP/Checksum/Checksum.cpp:76-82 | Narrowing a position to U32 and U8 keeps its offset within a word |
| CfdpChecksum.ByteSumAligned | CFDP/Checksum/Checksum.cpp:109-124 | Only the offset of a chunk within a word matters |
| CfdpChecksum.WordSumIsByteSum | CFDP/Checksum/Checksum.cpp:126-135 | Adding bytes at their places is adding the zero-padded big-endian words |
| CfdpChecksum.TilingSum | CFDP/Checksum/Checksum.cpp:65-100 | Chunks that tile a file sum to the file |
| CfdpChecksum.ChunkSumReordered | CFDP/Checksum/Checksum.cpp:65-100 | The order of the chunks does not matter |
| CfdpChecksum.Checksum.AddByteAtOffset | CFDP/Checksum/Checksum.cpp:126-135 | The value grows by the byte at its place, modulo 2^32 |
| CfdpChecksum.Checksum.AddWordAligned | CFDP/Checksum/Checksum.cpp:102-107 | Four bytes count as an aligned word |
| CfdpChecksum.Checksum.AddWordUnaligned | CFDP/Checksum/Checksum.cpp:109-124 | Up to three bytes count at the offsets of their position, wrapping within the word |
| CfdpChecksum.Checksum.AddUnalignedPart | CFDP/Checksum/Checksum.cpp:76-82 | Head or tail counts at its true position despite the narrowed argument |
| CfdpChecksum.Checksum.Update | CFDP/Checksum/Checksum.cpp:65-100 | A chunk at any alignment adds exactly its bytes at their places in the file |
| CfdpChecksum.OverrunIff | CFDP/Checksum/Checksum.cpp:87-88 | The loop takes a word beyond the chunk if and only if the last word of the chunk ends beyond 32 bits |
| CfdpChecksum.ChecksumOf | CFDP/Checksum/Checksum.cpp:65-135 | Any chunking in any order yields the word sum of the file modulo 2^32 |
| Words.FromToBytes | Fw/Types/Serializable.cpp:122-140 | Big-endian bytes of a value that fits spell the value |
| Words.ToFromBytes | Fw/Types/Serializable.cpp:382-398 | Any bytes are the bytes of the value they spell |
| Words.SpelledBytes | Fw/Types/Serializable.cpp:382-398 | One, two and four bytes as sums of shifted bytes, the highest first |
| Words.SpelledIff | Fw/Types/Serializable.cpp:122-140 | The bytes at a place are those written for a value exactly when they spell it |
| Words.WrittenBytes | Fw/Types/Serializable.cpp:71-189 | The bytes written for each width, place by place |
| Wire.RoundTrip | Fw/Types/Serializable.cpp:71-316 | Reading a written value, with anything behind it, returns it and uses exactly its bytes |
| Wire.Reencode | Fw/Types/Serializable.cpp:320-593 | Writing what a read returned gives exactly the bytes it used |
| Wire.WireBytes | Fw/Types/Serializable.cpp:71-316 | The bytes of each kind of value: big-endian, two's complement, 0xFF and 0x00, two bytes of length |
| Wire.BoolBytes | Fw/Types/Serializable.cpp:485-504 | 0xFF reads as true, 0x00 as false, anything else is a format error |
| Wire.BlockRoundTrip | Fw/Types/Serializable.cpp:267-288 | A length-prefixed block comes back |
| Wire.BlockRoundTripIff | Fw/Types/Serializable.cpp:267-288 | It does if and only if its length fits 16 bits |
| Wire.EncodeAllConcat | Fw/Types/Serializable.cpp:71-316 | Writing two lists is writing their concatenation |
| SerialBuffers.SerialBuffer.SerializeUnsigned | Fw/Types/Serializable.cpp:71-189 | Succeeds exactly when the width fits; appends, touches nothing behind, and a failure changes nothing |
| SerialBuffers.SerialBuffer.SerializeSigned | Fw/Types/Serializable.cpp:83-216 | The same with the two's complement |
| SerialBuffers.SerialBuffer.SerializeBool | Fw/Types/Serializable.cpp:240-255 | The same with one marker byte |
| SerialBuffers.SerialBuffer.SerializeBytes | Fw/Types/Serializable.cpp:267-288 | Block with or without length; a failure leaves at most the length written |
| SerialBuffers.SerialBuffer.SerializeBuffer | Fw/Types/Serializable.cpp:294-316 | A buffer's contents as a block, another's or its own; a failure changes nothing |
| SerialBuffers.SerialBuffer.SerializeNested | Fw/Types/Serializable.cpp:294-316 | The same for bytes in a buffer of their own |
| SerialBuffers.SerialBuffer.DeserializeUnsigned | Fw/Types/Serializable.cpp:320-442 | Value, status and cursor are those of the reference decoder on the unread bytes |
| SerialBuffers.SerialBuffer.DeserializeSigned | Fw/Types/Serializable.cpp:334-467 | The same for signed values |
| SerialBuffers.SerialBuffer.DeserializeBool | Fw/Types/Serializable.cpp:485-504 | The same, with the format error for other bytes |
| SerialBuffers.SerialBuffer.DeserializeBytes | Fw/Types/Serializable.cpp:522-555 | The same for blocks, and plain bytes without length |
| SerialBuffers.SerialBuffer.DeserializeBuffer | Fw/Types/Serializable.cpp:561-593 | The same into another buffer, which a failure leaves alone |
| SerialBuffers.SerialBuffer.ResetSer | Fw/Types/Serializable.cpp:595-598 | Both cursors start over |
| SerialBuffers.SerialBuffer.ResetDeser | Fw/Types/Serializable.cpp:600-602 | Only the read cursor starts over |
| SerialBuffers.SerialBuffer.DeserializeSkip | Fw/Types/Serializable.cpp:604-615 | Skips exactly when that much is left |
| SerialBuffers.SerialBuffer.SetBuff | Fw/Types/Serializable.cpp:621-632 | The contents become the given bytes, if they fit |
| SerialBuffers.SerialBuffer.SetBuffLen | Fw/Types/Serializable.cpp:634-642 | The length is set, if it fits |
| SerialBuffers.SerialBuffer.Fill | Fw/Types/SerialBuffer.cpp:47-52 | All memory is readable; the assertion holds |
| SerialBuffers.SerialBuffer.PushBytes | Fw/Types/SerialBuffer.cpp:54-59 | Appends exactly when the bytes fit, else changes nothing |
| SerialBuffers.SerialBuffer.PopBytes | Fw/Types/SerialBuffer.cpp:61-66 | Takes exactly what is there, else changes nothing |
| SerialBuffers.SerialBuffer.Write | Fw/Types/Serializable.cpp:71-316 | Any value: succeeds exactly when it fits, and failure moves the cursor by at most the two length bytes |
| SerialBuffers.SerialBuffer.Read | Fw/Types/Serializable.cpp:320-593 | Any kind: the reference decoder |
| BufferRuns.WriteAll | Fw/Types/Serializable.cpp:71-316 | A list of mixed values is written if and only if all together fit |
| BufferRuns.ReadWritten | Fw/Types/Serializable.cpp:320-593 | Reading a written value gives it back and leaves what is behind it |
| BufferRuns.ReadAll | Fw/Types/Serializable.cpp:320-593 | Reading the list of types returns the list of values and leaves what was behind them |
| BufferRuns.WriteThenRead | Fw/Types/Serializable.cpp:71-593 | On a fresh buffer the list comes back exactly when it fits, and nothing is left unread |
| BufferRuns.Apply | Fw/Types/Serializable.cpp:71-642 | Any call reports exactly whether it takes place; it keeps read cursor, write cursor and capacity in order; written bytes stay; a success does what the call is for, a failure changes nothing, or a length prefix at most |
| BufferRuns.Run | Fw/Types/Serializable.cpp:71-642 | All of this, with the reported outcome, at every step of every sequence of calls |
| BufferRuns.FailedCallsChangeNothing | Fw/Types/Serializable.cpp:71-642 | In every run, a failed call without stored length leaves bytes and cursors as they were |
| BufferRuns.WrittenBytesStay | Fw/Types/Serializable.cpp:71-316 | Over any stretch of writes, successful or not, bytes below the write cursor never change |
| Fields.TakeWritten | Fw/Types/Serializable.cpp:320-442 | A written field is taken back with the rest untouched |
| Fields.WrittenTaken | Fw/Types/Serializable.cpp:320-442 | Bytes are the field taken from them and the rest |
| Fields.NextField | Fw/Types/Serializable.cpp:320-442 | One field is taken off the unread bytes |
| FilePackets.PathNameIff | Fw/FilePacket/PathName.cpp:20-26 | initialize keeps the part in front of the first terminator, and at most 255 characters; a path survives if and only if it is at most 255 characters without terminator |
| FilePackets.InitializeDataIff | Fw/FilePacket/DataPacket.cpp:18-30 | A data packet carries all its data if and only if the size fits 16 bits |
| FilePackets.BufferSizeIsLength | Fw/FilePacket/FilePacket.cpp:96-114 | bufferSize is the length of the packet's bytes |
| FilePackets.ParseWritten | Fw/FilePacket/FilePacket.cpp:138-166 | A packet's bytes are parsed as that packet, with trailing bytes for start and end packets |
| FilePackets.AcceptedIff | Fw/FilePacket/FilePacket.cpp:138-166 | Bytes are parsed as a packet if and only if they are its encoding, followed by more only for start and end packets; so encoding again gives the same bytes or a prefix |
| FilePackets.EncodeInjective | Fw/FilePacket/FilePacket.cpp:116-132 | Different packets have different bytes |
| FilePackets.LaidOutIff | Fw/FilePacket/FilePacket.hpp:37-41 | Bytes are those of a packet if and only if byte 0 is its type 0 to 3, bytes 1 to 4 spell its sequence index, and its fields follow at their places |
| FilePackets.AcceptedLayoutIff | Fw/FilePacket/FilePacket.cpp:138-166 | Bytes are parsed as a packet if and only if they, or for start and end packets a first part of them, are so laid out |
| FilePackets.OtherKinds | Fw/FilePacket/FilePacket.cpp:157-163 | Type byte 255 is a mismatch, 4 to 254 fail the assertion |
| FilePackets.HeaderToSerialBuffer | Fw/FilePacket/Header.cpp:53-70 | Type and sequence index are appended exactly when five bytes fit |
| FilePackets.PathToSerialBuffer | Fw/FilePacket/PathName.cpp:59-81 | Length and path are appended exactly when they fit |
| FilePackets.StartToSerialBuffer | Fw/FilePacket/StartPacket.cpp:82-118 | The start packet's fields, exactly when they fit |
| FilePackets.DataToSerialBuffer | Fw/FilePacket/DataPacket.cpp:85-109 | The data packet's fields, exactly when they fit |
| FilePackets.BodyToSerialBuffer | Fw/FilePacket/EndPacket.cpp:73-91 | The fields of any packet type behind the header |
| FilePackets.ToBuffer | Fw/FilePacket/FilePacket.cpp:116-132 | Succeeds exactly when the memory holds bufferSize bytes, writes the packet's bytes in their layout and nothing behind them |
| FilePackets.NextPath | Fw/FilePacket/PathName.cpp:34-57 | One path is taken off the unread bytes |
| FilePackets.BodyFromSerialBuffer | Fw/FilePacket/DataPacket.cpp:52-83 | Parses as the reference; the fixed place of the data is where the unread bytes start |
| FilePackets.FromBuffer | Fw/FilePacket/FilePacket.cpp:22-32 | Returns a packet exactly for memory in its layout, and the outcome of every other type byte |
| FileTransfer.Send | Fw/FilePacket/DataPacket.cpp:18-109 | Every packet decodes to its chunk, the end packet to the checksum of all chunks |
| FileTransfer.Receive | Fw/FilePacket/EndPacket.cpp:53-91 | Accepts exactly data packets and an end packet, and computes the checksum of what they carry |
| FileTransfer.ChunksReordered | Fw/FilePacket/DataPacket.cpp:52-74 | Reordered packets carry reordered chunks |
| FileTransfer.AnyOrder | CFDP/Checksum/Checksum.cpp:65-135 | What any reordering carries sums to the file's words and to the end packet's checksum |
| FileTransfer.Transfer | CFDP/Checksum/Checksum.cpp:65-135 | End to end, for any chunking and any order of delivery, the receiver computes the word sum of the file and it matches the end packet |
| ComPackets.TimeWritten | Fw/Time/Time.cpp:78-132 | A time tag is read back from its eleven bytes |
| ComPackets.PacketWritten | Fw/Tlm/TlmPacket.cpp:20-74 | A packet is read back from its bytes |
| ComPackets.AcceptedIff | Fw/Log/LogPacket.cpp:42-67 | Bytes are accepted if and only if the header is complete, and they are the bytes of what was read |
| ComPackets.PacketLaidOut | Fw/Tlm/TlmPacket.cpp:20-42 | Packet type, id, time base, context, seconds, microseconds and value at their places |
| ComPackets.AcceptedLayoutIff | Fw/Tlm/TlmPacket.cpp:44-74 | Bytes are accepted as a packet if and only if they are so laid out |
| ComPackets.ComBufferFits | Fw/Cfg/Config.hpp:206-243 | Whatever a com buffer holds, the value fits the inner buffer |
| ComPackets.ComPacket.SerializeTime | Fw/Time/Time.cpp:78-101 | Appends the time tag exactly when it fits |
| ComPackets.ComPacket.SerializeHeader | Fw/Com/ComPacket.cpp:18-20 | Appends descriptor, id and time tag exactly when they fit |
| ComPackets.ComPacket.Serialize | Fw/Log/LogPacket.cpp:20-40 | Appends the packet's bytes in their layout exactly when they fit; the packet is unchanged |
| ComPackets.ComPacket.DeserializeTime | Fw/Time/Time.cpp:103-132 | Takes a time tag off the unread bytes |
| ComPackets.ComPacket.DeserializeValue | Fw/Tlm/TlmPacket.cpp:65-73 | The rest becomes the value; the assertion holds if and only if it fits the value buffer |
| ComPackets.ComPacket.Tlm | Fw/Tlm/TlmPacket.cpp:13-15 | An empty telemetry packet |
| ComPackets.ComPacket.Log | Fw/Log/LogPacket.cpp:13-15 | An empty log packet |
| ComPackets.ComPacket.Deserialize | Fw/Tlm/TlmPacket.cpp:44-74 | For any buffer: what the reference parser rejects is rejected; what it accepts becomes the packet, nothing left unread, exactly when the assertion holds |
| ComPackets.ReadPacket | Fw/Log/LogPacket.cpp:42-67 | Another packet of either kind becomes what is unread |
| ComPackets.WriteThenRead | Fw/Tlm/TlmPacket.cpp:20-74 | A packet is written to a fresh buffer exactly when it fits, and read back whole |
| TextBuffers.TruncateTwice | Fw/Types/StringType.cpp:141-172 | Truncating before or after appending makes no difference |
| TextBuffers.TextOf | Fw/Types/EightyCharString.cpp:30-32 | The text is what is in front of the first zero character, or all of the buffer |
| TextBuffers.StringBase.AppendBuff | Fw/Types/StringType.cpp:141-172 | A terminated buffer keeps the first capacity - 1 characters of the concatenation and stays terminated; one without terminator is left alone |
| TextBuffers.StringBase.AppendAll | Fw/Types/StringType.cpp:29-37 | Any sequence of appends gives the first capacity - 1 characters of the whole concatenation |
| TextBuffers.StringBase.EqualsChars | Fw/Types/StringType.cpp:48-64 | Holds if and only if this string is a prefix of the other |
| TextBuffers.StringBase.Equals | Fw/Types/StringType.cpp:39-46 | Holds if and only if the contents are equal, terminated or not |
| TextBuffers.PrefixIsEqualityIff | Fw/Types/StringType.cpp:48-64 | The comparison with characters answers equality if and only if the string is not a proper prefix of them |
| TextBuffers.PrefixComparesEqual | Fw/Types/StringType.cpp:48-64 | Different strings that compare equal |
| TimeTags.CompareIsOrder | Fw/Time/Time.cpp:157-185 | Comparing times of one clock is comparing total microseconds |
| TimeTags.MicrosOf | Fw/Time/Time.cpp:199-205 | A second has 1000000 microseconds, and seconds have 32 bits |
| TimeTags.OtherClock | Fw/Time/Time.cpp:163-168 | Times of different bases or contexts trip the assertions of comparing, adding and subtracting |
| TimeTags.AddIsSum | Fw/Time/Time.cpp:187-208 | Normalised times never trip the bound, stay normalised, and sum exactly unless off by 2^32 seconds |
| TimeTags.SubIsDifference | Fw/Time/Time.cpp:210-234 | Possible exactly when the minuend is not earlier, and then the exact difference |
| TimeTags.SubUndoesAdd | Fw/Time/Time.cpp:187-234 | Subtracting what was added gives the time back if and only if the sum is within range; otherwise it trips the assertion |
| TimeTags.TimeTag.Add | Fw/Time/Time.cpp:236-244 | The assertion and the new fields, carry included |
| TimeTags.SumWraps | Fw/Time/Time.cpp:236-244 | One normalised addition is the sum modulo 2^32 seconds |
| TimeTags.TimeTag.AddAll | Fw/Time/Time.cpp:236-244 | Any run of normalised additions stays normalised, never trips the assertion, and is the sum modulo 2^32 seconds |
| TimeTags.WithinRangeIff | Fw/Time/Time.cpp:236-244 | That is the exact sum if and only if it is within range |
| FileReading.NiceCrc32 | Os/FileCommon.cpp:17-70 | Succeeds exactly for files below 2 GiB whose end is reached before a failure; the CRC is then the fold over the whole file from 0xFFFFFFFF, for every pattern of short reads |
| FileReading.UpdateCrc | Os/FileCommon.cpp:50-53 | The bytes of a chunk continue the fold |
| FileReading.FoldInOrder | Os/FileCommon.cpp:50-53 | Each byte updates the CRC once, in order |
| FileReading.Narrow | Os/FileCommon.cpp:24 | The signed 32-bit number that agrees modulo 2^32 |
| FileReading.SmallFilesFinish | Os/FileCommon.cpp:22-31 | Every file with positions below 2^31 is read to its end |
| FileReading.SingleBytes | Os/FileCommon.cpp:44-47 | Every file can be read in the shortest possible reads |
| FileReading.ComputeHash | Os/ValidateFileCommon.cpp:8-61 | A failure is returned; otherwise the assertions hold if and only if the reads number at most size / 256 + 1 narrowed to 32 bits, and then the whole file was hashed in order |
| FileReading.FullReadsHold | Os/ValidateFileCommon.cpp:26-53 | Reads that return all they are asked for hold the assertions if and only if size / 256 + 1 fits a signed 32-bit number |
| FileReading.ShortReadsTrip | Os/ValidateFileCommon.cpp:26-53 | A reading of 300 bytes that does |

## Left out

Metrics:
- Calendar dates: days are integers; time stamps are cut to their date by the source as well.
- Python floats: earned value and percentages are reals; `timedelta` rounding to microseconds is not modelled.
- `isdigit` for digits outside ASCII; numbers such as "nan" that `float` reads and that are not reals. Other number formats are a parameter (`decimal`, `number`).
- Events without a body; the per-day lists `issue_deltas` beside the totals; issues imported from an earlier run.
- `validate_issue_label_state` (prints warnings) and `find_issue_in_plan` (its task and value are fields of an issue).
- Gates named like a field of a task or like another column; expected values are computed for every plan, while the source keeps them for the primary one. Of a plan line only name, value, dates and gates are modelled.
- Reading and writing the history file; cell values are integers.
- GitHub requests, report configuration and plotting.
- MakeTargets.MakeExpander.ExpandRecursive: the state left behind by an error, since the error ends the run.

Remote handle and serial driver:
- The variant of the handle for the DSP, which leaves the once-initialisation to a service whose body is not in the repository.
- An open returns a handle that is not -1 and not open already, or an error; the remote service itself is not part of this model.
- Memory ordering: reads of the static handle are atomic steps in one global order.
- SerialPool.StepConserves: a delivered buffer keeps the size of the read, which shrinks it for the next read; buffers are identities here.
- Clients that return buffers that are neither their own nor reported to them; starting and stopping the reader, delays and log events.

Checksum, buffers and packets:
- CfdpChecksum.Checksum.Update: lengths for which the loop takes a word beyond the chunk and starts over, which are those of `OverrunIff`.
- CfdpChecksum.ChecksumOf: the same lengths of single chunks.
- SerialBuffers.SerialBuffer.SerializeUnsigned: one method for the 8, 16, 32 and 64-bit overloads; F32, F64 and pointers go through it with their bit patterns. Capacities are at most 2^31 - 1, so cursor sums do not wrap.
- SerialBuffers.SerialBuffer.SerializeBuffer: another buffer over the same memory, whose bytes the copy may overwrite.
- SerialBuffers.SerialBuffer.DeserializeBuffer: the destination is another buffer with other memory; into itself the copied ranges may overlap.
- `copyRaw`, `copyRawOffset`, `deserializeNoCopy`, the copy constructor, and re-pointing of external buffers: they need raw pointers.
- FilePackets.BodyFromSerialBuffer: a parsed path or data points into the buffer; here it is the bytes pointed to, so later changes of the memory are not seen.
- File packet types 4 to 254 fail an assertion, which is an outcome of parsing; a packet of type T_NONE, whose encoding fails an assertion, is not a value of the model.
- File and sequence bookkeeping of the uplink and downlink components; `Send` and `Receive` only join packets and checksum.
- One class stands for telemetry and log packets, which differ in their type; the AMPCS-compatible layout is not modelled.
- ComPackets.ComPacket.DeserializeValue: what the copy overwrites behind the value buffer when the assertion is about to fail.

Strings, time and files:
- Null pointers, sources without terminator, and appending a string to itself.
- Time intervals in 64 bits, and clock sources.
- FileReading.NiceCrc32: opening, seeking and reading fail at a parameter's choice; `update_crc_32` is a parameter; the offset wraps around like two's complement.
- FileReading.ComputeHash: the hash itself, which is handed the file in order.
- Device drivers, topologies, the XML tools and other generated tables.
