# SelectiveMirror: a verified model of its core

SelectiveMirror mirrors local directories to cloud storage through rclone. This project models the parts of it
that keep state or rewrite text, and proves what they guarantee, in Dafny 4.11. `dafny verify dfyconfig.toml`
checks everything.

Code that updates an object in place is a class whose methods are proved, one by one, to have the effect that a
function on values gives (`View() == Enqueue(old(View()), task)`). The guarantees are then lemmas about those
functions: over every input, every finite run of calls in any order, or every interleaving.

| files | what they model |
|---|---|
| `FairQueueSpec`, `FairQueue`, `FairQueueRuns`, `FairQueueFairness`, `FairQueueTiming`, `FairQueueHistory`, `Backoff` | the scheduler's queue: deduplication, priority inserts, cooldowns, circuit breaker, depth limits |
| `ConfigEdit`, `ConfigRoundTrip`, `ConfigSections`, `ConfigDocuments`, `ConfigBlock`, `TextLines` | editing the YAML configuration as lines of text |
| `FilterRules`, `FilterReload` | ignore rules, their translation for rclone, and the guarded reload |
| `KeyOrder`, `CanonicalJson`, `CanonicalParse`, `CanonicalShortest` | the JSON text that telemetry is signed over |
| `AnomalyRecorder`, `AnomalyFates` | the send and close protocol between anomaly recording and alerting, as interleaved steps |
| `StallSupervisor` | the tick loop that kills a wedged rclone process, and its capped stderr copy |
| `InstallEvents` | the first_seen and upgrade events with their retry counters |
| `WebhookIncidents` | the incident state machine behind the alert webhook |
| `LogRotation`, `LogRotationRuns` | the rotating log file and its backups |
| `ToastLimiter` | the rate limits on desktop notifications |
| `LikeEscape` | escaping a directory name for SQL LIKE |
| `Decimal`, `Hexadecimal`, `Wrappers` | numerals and optional values, shared by the others |

## What the code does differently from what its documentation says

For each of these there is a theorem that says exactly when it happens, and a concrete input or run on which it does.

- The breaker's backoff is the documented `min(10s * 2^(n-3), 5min)` up to the 32nd failure in a row. The 33rd makes
  the 64-bit product negative, so the mirror is not paused at all. Exactly: `Backoff.BackoffIsIdealIff` and
  `Backoff.BackoffPausesIff`; example: `FairQueueTiming.Failure33PausesNothing`.
- "Each delete must execute" fails when a task is enqueued while its file counts as pending and a delete comes first of
  what is queued for it: the delete is thrown out. Exactly: `FairQueueRuns.DeletesDroppedIff`, and for the way the
  program's own callers use the queue `FairQueueRuns.CallersDropDeleteIff`; example: `FairQueueRuns.ResyncDropsDelete`.
- "Re-enqueue moves it to the back" fails after a delete of the file has been handed out, which clears the pending mark
  while the sync is still queued: the next sync of the file is queued beside the first. Exactly:
  `FairQueueRuns.QueuedTwiceIff`; example: `FairQueueRuns.DeleteLetsSyncInTwice`.
- An Enqueue on a queue above its hard cap throws out the file's old entry and then refuses the new one. Exactly:
  `FairQueueSpec.EnqueueLosesFileIff`; a run that reaches such a queue: `FairQueueRuns.OverfullQueueLosesFile`.
- Two mirrors can share queue keys when one's name is the other's followed by a colon. It takes a path with a colon, so
  it cannot happen to files on Windows. Exactly: `FairQueueSpec.SharedKeyIff` and `FairQueueSpec.MirrorsShareKeysIff`;
  example: `FairQueueSpec.ColonInMirrorNameCollides`.
- `unmirror` cannot find a mirror that `addmirror` wrote if its name needs escaping, and it deletes comments that
  stand where the list ended. Exactly: `ConfigRoundTrip.AddThenRemove`; examples:
  `ConfigRoundTrip.EscapedNameIsNotRemoved` and `ConfigRoundTrip.TrailingCommentIsLost`.
- "Rules never shrink due to transient file states" fails for a content that takes a rule away and brings another one,
  such as that of a file cut in the middle of a rule: it is committed after one read. Exactly:
  `FilterReload.DropsOnOneReadIff`, at every step of every run `FilterReload.LossAtStepIff`, and for cut files
  `FilterReload.CutFileLosesRulesIff`; example: `FilterReload.CutRuleIsCommitted`.
- A new version transition does not get a fresh budget of upgrade attempts, but what failures of earlier transitions
  have left of five. Exactly: `InstallEvents.TransitionGetsTheRest` and `InstallEvents.BudgetIsFreshIff`; example:
  `InstallEvents.OldFailuresSpendNewBudget`.
- A failing liveness probe does count as flat, although a comment in internal/sync/proc_windows.go says otherwise.
  Exactly: `StallSupervisor.UnprobedFlatlinesIff`; example: `StallSupervisor.SilentUnprobedIsKilled`.
- One log backup is kept even when none is asked for. Exactly: `LogRotation.BackupsWithinLimitIff`; example:
  `LogRotation.ZeroBackupsKeepOne`.
- The overflow of the anomaly channel is to be announced once so that an operator knows of it, but the notice is itself
  lost if the channel is still full. Exactly: `AnomalyFates.NoticeIsSentIff`; example: `AnomalyFates.NoticeIsLost`.
- Notifications are to be sustainable at one in 30 seconds, but a refill throws away what has accrued of the next token,
  so attempts 29 seconds apart get one in 58. Exactly: `ToastLimiter.RefillLosesIff`, with the bound
  `ToastLimiter.RefusedOnlyWhenBusy` on what can be refused; example: `ToastLimiter.EverySecondIsRefused`.
- Strings are to be signed with their characters written literally, and `<`, `>` and `&` are; the line separator U+2028
  and the paragraph separator U+2029 are not. Exactly, and for examples: `CanonicalShortest.LongerSpellingIff`.
- Asking for the files under `src` also selects those under `SRC`, since LIKE folds ASCII case. Exactly:
  `LikeEscape.SelectsUnderDir`; example: `LikeEscape.OtherCaseIsSelected`.

## Model

| member | source | states |
|---|---|---|
| Backoff.BackoffIsIdealIff | internal/sync/fairqueue.go:266-273 | for every failure count, the 64-bit computation gives the documented backoff exactly when the count is at most 56 and bit 53-(n-3) of 5^10 is clear; beyond 56 the pause is zero |
| Backoff.BackoffWithinWord | internal/sync/fairqueue.go:231-273 | from the 3rd to the 32nd failure the backoff is the documented one, lies between 10 seconds and 5 minutes, and does not decrease |
| Backoff.BackoffBreaksAt33 | internal/sync/fairqueue.go:266-273 | 32 is the last such count: the 33rd failure gives a negative pause |
| Backoff.BackoffPausesIff | internal/sync/fairqueue.go:266-273 | the mirror is paused at all exactly under that condition |
| FairQueueObject.FairQueue.RemoveByKey | internal/sync/fairqueue.go:446-462 | the loop removes the first item with the key, clears the key, and starts that item's callback, or does nothing |
| FairQueueObject.FairQueue.Enqueue | internal/sync/fairqueue.go:98-144 | the new state is the specified one: refused when closed, deduplicated, refused at the cap, appended, depth watched |
| FairQueueObject.FairQueue.EnqueuePriority | internal/sync/fairqueue.go:149-161 | the task goes to the front, nothing else changes |
| FairQueueObject.FairQueue.SetCooldown | internal/sync/fairqueue.go:167-174 | sets the fixed cooldown if there is one |
| FairQueueObject.FairQueue.SetAdaptiveCooldown | internal/sync/fairqueue.go:180-229 | the in-place trimming loop and the cooldown arithmetic have the specified effect |
| FairQueueObject.FairQueue.RecordFailure | internal/sync/fairqueue.go:255-277 | counts the failure, sets the 64-bit backoff from the third on, and reports the third |
| FairQueueObject.FairQueue.RecordSuccess | internal/sync/fairqueue.go:280-288 | forgets the mirror's failures and pause |
| FairQueueObject.FairQueue.DequeuePass | internal/sync/fairqueue.go:319-414 | one pass of the loop: the scan with its earliest-expiry bookkeeping returns and removes exactly what the specification says |
| FairQueueObject.FairQueue.Close | internal/sync/fairqueue.go:421-426 | only sets closed |
| FairQueueSpec.PassTakesFirstEligible | internal/sync/fairqueue.go:332-378 | a pass hands out the first eligible item and keeps the order of the rest, and hands out nothing exactly when cancelled or nothing is eligible |
| FairQueueSpec.NothingEligibleBeforeExpiry | internal/sync/fairqueue.go:331-406 | a pass that waits waits for a later time, before which no queued item becomes eligible while breakers and cooldowns stay |
| FairQueueSpec.EnqueueLosesFileIff | internal/sync/fairqueue.go:108-121 | an Enqueue displaces the old entry and refuses the new one exactly when the file is pending and the queue is above the cap |
| FairQueueSpec.AdaptiveCooldownBounds | internal/sync/fairqueue.go:201-222 | the cooldown lies between 5 and 120 seconds, covers the event frequency and one and a half times the sync unless capped, and equals one of the three |
| FairQueueSpec.AfterKeepsExactly | internal/sync/fairqueue.go:189-199 | trimming the event history keeps exactly the events younger than the window, with their multiplicities |
| FairQueueSpec.SharedKeyIff | internal/sync/fairqueue.go:79-84 | two per-file tasks share a key exactly when they name the same file, or one's path takes up what the other's mirror name has beyond the first's name and a colon |
| FairQueueSpec.KeysIdentifyFiles | internal/sync/fairqueue.go:79-84 | so the key identifies the file unless a mirror name and the other mirror's path both have a colon: whatever the mirror names, if no path has one |
| FairQueueSpec.MirrorsShareKeysIff | internal/sync/fairqueue.go:79-84 | two mirrors have files with the same key exactly when one's name is the other's followed by a colon and possibly more |
| FairQueueSpec.ColonInMirrorNameCollides | internal/sync/fairqueue.go:79-111 | then one mirror's task displaces the other's |
| FairQueueRuns.Conservation | internal/sync/fairqueue.go:98-161 | over any run, for every task: queued before plus accepted equals queued after plus handed out plus displaced; and each displaced task's callback is started once, in order |
| FairQueueRuns.ConservationFromEmpty | internal/sync/fairqueue.go:98-161 | the same from an empty queue, as an equation of multisets |
| FairQueueRuns.LengthBound | internal/sync/fairqueue.go:113-121 | the queue never grows beyond the cap of 100000 plus the number of priority inserts |
| FairQueueRuns.PendingAlwaysQueued | internal/sync/fairqueue.go:98-462 | in every reachable state each pending key is the key of a queued item |
| FairQueueRuns.PendingExactWithoutPriority | internal/sync/fairqueue.go:98-462 | without priority inserts the non-empty keys are pairwise distinct and pending is exactly their set |
| FairQueueRuns.OverfullQueueLosesFile | internal/sync/fairqueue.go:98-161 | a run from the empty queue, up to the cap and one priority insert beyond, after which re-enqueueing a queued file loses it |
| FairQueueRuns.DeletesDroppedIff | internal/sync/fairqueue.go:98-161 | any run drops no delete exactly when nothing is enqueued for a pending file of whose queued tasks a delete comes first |
| FairQueueRuns.AcceptedDeletesExecute | internal/sync/fairqueue.go:146-161 | in such a run every accepted delete is still queued or was handed out |
| FairQueueRuns.CallersDropDeleteIff | internal/sync/fairqueue.go:146-161 | for callers that enqueue syncs at the back and deletes at the front, that is whenever a delete of the pending file is queued, at every moment of a run |
| FairQueueRuns.ResyncDropsDelete | internal/sync/fairqueue.go:146-161 | sync, delete, sync of one file: the delete is thrown out |
| FairQueueRuns.QueuedTwiceIff | internal/sync/fairqueue.go:86-126 | in any run no file ever has two queued syncs exactly when none is enqueued that finds one queued and is not about to displace it |
| FairQueueRuns.DeleteLetsSyncInTwice | internal/sync/fairqueue.go:98-378 | sync, delete, hand-out of the delete, sync: the file's sync is queued twice |
| FairQueueFairness.NoStarvation | internal/sync/fairqueue.go:98-378 | an item at position p that stays eligible and is not itself re-enqueued has been handed out as soon as the run has handed out more than p tasks, plus one for each priority insert |
| FairQueueFairness.ServedIsHandedOut | internal/sync/fairqueue.go:332-378 | being served means that the task is among those handed out |
| FairQueueTiming.TripsOnceBetweenSuccesses | internal/sync/fairqueue.go:255-288 | in a run without a success, RecordFailure reports a trip exactly once if the third failure is in the run, and otherwise never |
| FairQueueTiming.BreakerHolds | internal/sync/fairqueue.go:255-363 | until a pause that a failure has set is over, no sync of the mirror is handed out in any run without a success and with at most 32 failures in a row |
| FairQueueTiming.FailurePauses | internal/sync/fairqueue.go:255-277 | a failure from the third to the 32nd in a row keeps the mirror's syncs back for the documented backoff |
| FairQueueTiming.Failure33PausesNothing | internal/sync/fairqueue.go:266-273 | the 33rd failure in a row leaves the mirror unpaused |
| FairQueueTiming.SuccessResets | internal/sync/fairqueue.go:280-288 | a success forgets the failures and ends the pause of its own mirror, and touches no other |
| FairQueueTiming.ClosedQueueDrains | internal/sync/fairqueue.go:418-426 | a closed queue accepts nothing more, and a pass comes back finished exactly when it is empty |
| FairQueueTiming.CooldownHolds | internal/sync/fairqueue.go:365-377 | with a clock that does not go back, no sync of a file is handed out before its cooldown is over, in any run |
| FairQueueTiming.SyncedFileRests | internal/sync/fairqueue.go:180-229 | after a sync the file rests for at least the base cooldown, in any run |
| FairQueueTiming.CooledFileRests | internal/sync/fairqueue.go:167-174 | a fixed cooldown is kept in full until a cooldown is set anew |
| FairQueueTiming.OneWarningUntilDrained | internal/sync/fairqueue.go:128-141 | between two drainings the depth warning fires exactly once if the queue overflows, and otherwise not at all |
| FairQueueHistory.PassEndsIff | internal/sync/fairqueue.go:319-414 | after any run from the empty queue, a pass comes back finished exactly when it is cancelled, or the queue has been closed and every accepted task was handed out or displaced; an open queue with nothing left makes it wait for a signal |
| FairQueueHistory.MirrorPausedIff | internal/sync/fairqueue.go:255-288 | after any run, a mirror is paused at a time exactly when it has failed at least three times since its last success and the backoff for that many failures, from the last of them, is not over |
| FairQueueHistory.HistoryByRun | internal/sync/fairqueue.go:185-199 | after any run whose clock does not go back, the kept event history of a file is its syncs in the 60 seconds before the last, with multiplicity and in order |
| FairQueueHistory.CoolingIff | internal/sync/fairqueue.go:165-229 | after any such run, a file is cooling at a time exactly when the cooldown that its last sync has set, fixed or from the syncs of the 60 seconds before, is not over |
| FairQueueHistory.PassHandsOutFirstReady | internal/sync/fairqueue.go:332-378 | after any such run, a pass hands out the first queued task that may run by the history of calls, if there is one, and otherwise none: a delete always may, a sync when its mirror is not paused and its file not cooling |
| FairQueueHistory.WaitEndsWithAnObstacle | internal/sync/fairqueue.go:381-406 | the time a pass waits for is the end of the pause or the cooldown that holds back a queued task |
| FairQueueHistory.AcceptedIff | internal/sync/fairqueue.go:98-126 | a task is accepted exactly when the queue is open and shorter than 100000, or as long as that and the task takes the place of a pending one |
| FairQueueHistory.WarningsByDepth | internal/sync/fairqueue.go:128-141 | after any run, the depth warning has fired as often as the depth has come to 50000, counting anew only after it has been below 25000 |
| ConfigEdit.FindInsertion | internal/config/edit.go:254-290 | the scan loop, which rewrites inline empty lists in place, finds the specified insertion point |
| ConfigEdit.AddMirrorLines | internal/config/edit.go:222-309 | the edit gives the specified lines, or the specified error |
| ConfigEdit.FindEntryEnd | internal/config/edit.go:356-374 | the loop finds the first line that ends the entry |
| ConfigEdit.RemoveMirrorLines | internal/config/edit.go:327-387 | the edit gives the specified lines, or the specified error |
| ConfigEdit.SetFieldLines | internal/config/edit.go:155-198 | the loop replaces the first matching top-level line or appends one |
| ConfigEdit.UniqueMirrorName | internal/config/edit.go:448-463 | the first free candidate is returned; a taken name, the base, comes back exactly when all 999 candidates are taken |
| ConfigRoundTrip.WrittenNameIsFound | internal/config/edit.go:345-351 | the name line that is written matches the pattern that is searched for exactly when the name needs no escaping |
| ConfigRoundTrip.AddThenRemove | internal/config/edit.go:222-387 | adding and then removing a mirror gives back the lines exactly when the name needs no escaping, a mirrors section in block form exists, and only blank lines precede the next entry, top-level key or end; removal reports not found exactly when the name needs escaping |
| ConfigRoundTrip.AddThenRemoveText | internal/config/edit.go:222-387 | the same for the text of the file, up to the byte order mark |
| ConfigRoundTrip.EscapedNameIsNotRemoved | internal/config/edit.go:345-353 | a mirror with a quote mark in its name is added and then not found |
| ConfigRoundTrip.TrailingCommentIsLost | internal/config/edit.go:356-379 | a comment at the end of the list does not survive adding and removing a mirror |
| ConfigRoundTrip.SetThenRead | internal/config/edit.go:173-195 | a field that has been set reads back as set exactly when its key does not begin like a comment or an indented line; otherwise the line is appended each time |
| ConfigRoundTrip.OtherFieldsUnchanged | internal/config/edit.go:173-195 | setting a field changes no field with another key |
| ConfigRoundTrip.ByteOrderMarkIsDropped | internal/config/edit.go:222-387 | a byte order mark changes nothing about what the edits make of a file |
| ConfigSections.RemovalTakesOneEntry | internal/config/edit.go:327-387 | what is removed begins at the first line with the name and ends before the next list item or top-level line; no line of another item or section goes, no non-blank line of the entry stays; it fails exactly for a name with a control character or without such a line |
| ConfigSections.AdditionGoesLast | internal/config/edit.go:254-308 | a new entry goes after the last line of content in the mirrors section, so inside no other, with no other line changed but an inline empty list; without a section, one is added at the end |
| ConfigDocuments.EntryName | internal/config/edit.go:345-351 | a name that needs no escaping finds a written entry exactly when it is that entry's |
| ConfigDocuments.RemovalKeepsOtherEntries | internal/config/edit.go:345-387 | whatever else is in the file, removing a mirror keeps every written entry whole that does not have the name |
| ConfigDocuments.AdditionKeepsOtherEntries | internal/config/edit.go:254-308 | adding a mirror keeps every written entry whole |
| ConfigDocuments.RemovalTakesMirrorOut | internal/config/edit.go:327-387 | in a file with any list of mirrors, removal takes the first with the name out of the list, and nothing else, and reports not found exactly if there is none |
| ConfigDocuments.AdditionAppendsMirror | internal/config/edit.go:222-309 | in such a file, an addition appends the mirror to the list, unless the list has its name or a field has a control character |
| ConfigDocuments.EditsRefineList | internal/config/edit.go:222-387 | any sequence of additions and removals does to the file what it does to the list of its mirrors |
| ConfigDocuments.SetChangesOneLine | internal/config/edit.go:155-198 | setting a field replaces one line that begins with the key and a colon or appends one, and fails exactly for control characters |
| ConfigBlock.QuotedReadsBack | internal/config/edit.go:389-412 | the quoted form of every token, whatever counts as printable, reads back as the token |
| ConfigBlock.BlockReadsBack | internal/config/edit.go:413-444 | the block written for a project reads back as that project, up to the loader's defaults |
| TextLines.JoinSplit | internal/config/edit.go:241-308 | joining the lines of a text gives back the text |
| TextLines.SplitJoin | internal/config/edit.go:241-308 | splitting joined lines gives back the lines |
| FilterRules.TrimTrailingUnescaped | internal/filter/filter.go:296-306 | the loop trims as specified |
| FilterRules.TrimTrailingIsLongest | internal/filter/filter.go:294-306 | only blanks are cut, and what is left is the longest prefix that does not end in an unescaped blank |
| FilterRules.ParsedRulesAreRules | internal/filter/filter.go:124-133 | no parsed rule is empty, a comment or indented |
| FilterRules.CutRules | internal/filter/filter.go:124-133 | the rules of a file that is cut off anywhere are its first k rules, and perhaps the stub of one more |
| FilterRules.FileReadsBack | internal/filter/filter.go:108-133 | a file of rules without blanks around them, comments and blank lines reads back as its rules, in order |
| FilterRules.SignOfTranslation | internal/filter/filter.go:523-535 | the translated line includes exactly if the rule is a negation |
| FilterRules.LiteralNameIsKept | internal/filter/filter.go:523-535 | the pattern of the translated line is the name itself, for every name written with its spaces escaped, with two stars behind a directory |
| FilterRules.GenerateLines | internal/filter/filter.go:453-501 | the loops build control lines, hoisted excludes, the reversed other rules and the final include, without bad patterns |
| FilterRules.ReversedReadsTheSame | internal/filter/filter.go:443-447 | reading the reversed translation first-match-first is reading the rules last-match-first |
| FilterRules.GeneratedFileAgrees | internal/filter/filter.go:401-517 | the generated file excludes a path exactly when IsExcluded does, or a hoisted directory exclude matches it, or it lies below the root and is named like the configured ignore file |
| FilterRules.IsExcludedIff | internal/filter/filter.go:401-421 | a path is excluded exactly when it is a control file, or the last rule that compiles and matches it is no negation |
| FilterRules.ControlFileIsExcluded | internal/filter/filter.go:401-517 | the control file is excluded in every directory, and by the generated file too |
| FilterReload.IsStrictSubset | internal/filter/filter.go:311-326 | the count-down decides whether one rule list is a proper sub-multiset of the other |
| FilterReload.NewEngine | internal/filter/filter.go:43-76 | loading fails exactly for a file that cannot be read, and otherwise gives the specified state |
| FilterReload.Engine.RebuildMerged | internal/filter/filter.go:82-102 | rebuilding gives the specified matcher and bad patterns |
| FilterReload.Engine.ReloadRules | internal/filter/filter.go:169-261 | a reload gives the specified state and reports a change exactly when the rules differ |
| FilterReload.NewIsValid | internal/filter/filter.go:43-76 | after loading, the project rules are exactly those of the file that compile |
| FilterReload.HasBadAfterNewIff | internal/filter/filter.go:43-102 | bad patterns are reported after loading exactly when a global does not compile, or no rule is left because none of the project's compiles |
| FilterReload.AlwaysValid | internal/filter/filter.go:169-261 | in every run of reloads every project rule compiles and the matcher is that of the current rules |
| FilterReload.SameGenerationSameRules | internal/filter/filter.go:243-260 | the generation does not decrease, and equal generations mean equal rule sequences |
| FilterReload.ShrinkNeedsTwoReads | internal/filter/filter.go:217-241 | at every step of every run, rules are only taken away, none added, if two reads found the same hash |
| FilterReload.DropsOnOneReadIff | internal/filter/filter.go:163-241 | a rule is lost on the word of one read exactly when the content is new and compiles, and takes a rule away but also brings one |
| FilterReload.LossAtStepIff | internal/filter/filter.go:169-261 | at every step of every run a rule is lost exactly then, or when the rules shrink and a second read finds the same hash |
| FilterReload.LossesConfirmedIff | internal/filter/filter.go:163-168 | so a run loses rules only on the word of two equal reads exactly when the former never happens in it |
| FilterReload.CutFileLosesRulesIff | internal/filter/filter.go:211-241 | of a file read while cut off anywhere, rules are lost on one read exactly when the cut leaves a stub that compiles and is none of the rules cut off |
| FilterReload.CutRuleIsCommitted | internal/filter/filter.go:163-168 | after loading a whole file, one read of it cut in the middle of a rule replaces its rules |
| FilterReload.ReloadTakesEffectIff | internal/filter/filter.go:169-261 | at the end of any run, a reload puts the rules it reads in force exactly when the content can be read, is new, compiles with the globals, and, if it only takes rules away, is found again by the second read; otherwise it changes nothing |
| FilterReload.AddedRulesAreInForce | internal/filter/filter.go:231-260 | a new content that compiles and takes no rule away is in force after one read, whatever a second one would find |
| FilterReload.ReloadsConverge | internal/filter/filter.go:169-261 | whatever run of reloads has gone before, a content that compiles and is read twice is in force |
| FilterReload.GenerationCountsChanges | internal/filter/filter.go:243-260 | the generation counts the reloads of a run that have changed the rules |
| FilterReload.NewKeepsCompiling | internal/filter/filter.go:43-76 | loading keeps exactly the rules that compile, in their order |
| KeyOrder.BytesOrderIsCodePointOrder | internal/telemetry/canonical.go:86-93 | comparing the UTF-8 bytes of two strings is comparing their code points |
| KeyOrder.KeyOrderByBytes | internal/telemetry/canonical.go:88-93 | a key precedes another exactly when its UTF-8 encoding is shorter, or as long and smaller at the first byte that differs |
| KeyOrder.Utf8Decodes | internal/telemetry/canonical.go:86-93 | the bytes taken for a character are those that decode to it by section 3 of RFC 3629 |
| KeyOrder.KeyLessIsStrictOrder | internal/telemetry/canonical.go:88-93 | the comparison by length in bytes and then bytes is a strict total order |
| KeyOrder.SortedKeysUnique | internal/telemetry/canonical.go:81-93 | a set of keys has only one strictly sorted list |
| CanonicalJson.KeysInOrder | internal/telemetry/canonical.go:82-93 | keys collected from the map in any order come out as that list, strictly increasing |
| CanonicalJson.WriteCanonical | internal/telemetry/canonical.go:79-153 | appends the value's text to the builder, and fails exactly on values with an unsupported part |
| CanonicalJson.CanonicalText | internal/telemetry/canonical.go:71-77 | the result is a function of the value alone, whatever order the maps are walked in |
| CanonicalJson.SupportedIff | internal/telemetry/canonical.go:118-153 | a value can be signed exactly when no part of it, at any path, is of an unsupported type |
| CanonicalParse.TextInverse | internal/telemetry/canonical.go:46-59 | reading an encoded string gives back the string, for every string |
| CanonicalParse.ParseInvertsPrint | internal/telemetry/canonical.go:71-153 | a parser gives back every supported value from its text |
| CanonicalParse.SignedTextIsInjective | internal/telemetry/canonical.go:71-153 | two supported values have the same text exactly when they are equal |
| CanonicalShortest.EncodedIsShortest | internal/telemetry/canonical.go:46-59 | of all spellings of a string without U+2028 and U+2029, the one that is signed is the shortest, and the only one of its length up to the case of hexadecimal digits: nothing is escaped that need not be |
| CanonicalShortest.LongerSpellingIff | internal/telemetry/canonical.go:46-59 | those two characters are exactly the ones that are spelt longer than need be |
| CanonicalShortest.NumeralIsUnique | internal/telemetry/canonical.go:127-140 | a number is signed as its only numeral without needless zeros |
| AnomalyRecorder.NeverPanics | internal/anomaly/anomaly.go:99-115 | in no interleaving is there a send on the closed channel or a second close of it |
| AnomalyRecorder.DeliveredOnceInOrder | internal/anomaly/anomaly.go:141-160 | in every reachable state what was delivered is a prefix of what was sent, without repetition |
| AnomalyRecorder.DrainedWhenCloseReturns | internal/anomaly/anomaly.go:280-305 | once the first Close has returned, everything sent has been delivered, and nothing is sent or delivered any more |
| AnomalyRecorder.CallsAccounted | internal/anomaly/anomaly.go:204-239 | calls that hand over an anomaly are still at it, sent, counted as dropped, or found the recorder closed; beyond those, the channel carried at most one overflow notice |
| AnomalyRecorder.LoopNeverStuck | internal/anomaly/anomaly.go:141-160 | after the channel is closed the callback loop can go on until it ends |
| AnomalyRecorder.LoopEnds | internal/anomaly/anomaly.go:287-305 | after the channel is closed the remaining work of the loop is exactly used up by its own steps, whatever else happens |
| AnomalyFates.FateIsDecided | internal/anomaly/anomaly.go:204-239 | in every interleaving, an anomaly is dropped exactly when 64 messages wait at its send, refused exactly when the recorder is closed when its call looks, and otherwise sent |
| AnomalyFates.NoticeIsSentIff | internal/anomaly/anomaly.go:214-239 | the overflow notice is sent exactly when the call that announces the overflow finds room in the channel |
| AnomalyFates.OverflowIsAnnounced | internal/anomaly/anomaly.go:214-239 | once the overflow is claimed, a call has tried to send the notice or is about to, and only then |
| AnomalyFates.NoticeIsLost | internal/anomaly/anomaly.go:214-239 | a run in which the 65th anomaly is dropped and the notice with it |
| AnomalyFates.OnlyFirstCloseWaits | internal/anomaly/anomaly.go:287-305 | in every interleaving at most one Close call is the one that waits for the loop |
| StallSupervisor.RunWithSupervisor | internal/sync/liveness.go:236-366 | the loop's exit code is -2 exactly when some k ticks in a row before any cancellation showed no sign of life, else -3 if cancelled, else the process's own code |
| StallSupervisor.LivelyIsNeverStalled | internal/sync/liveness.go:313-363 | a process that shows a sign of life once in every k ticks in a row is never stall-killed |
| StallSupervisor.UnprobedFlatlinesIff | internal/sync/liveness.go:317-339 | while probes fail, the process is flat exactly when its output is silent |
| StallSupervisor.SilentUnprobedIsKilled | internal/sync/liveness.go:317-339 | with silent output and failing probes the process is killed |
| StallSupervisor.FlatlinesStep | internal/sync/liveness.go:335-350 | a tick brings the kill exactly when the flat stretch it ends has reached k |
| StallSupervisor.GraceSeconds | internal/sync/liveness.go:131-158 | transfers are given 60 seconds without a sign of life, everything else 240 |
| StallSupervisor.OneSignalIsEnough | internal/sync/liveness.go:317-339 | a process of which one signal advances from tick to tick, be it output, processor time or bytes, is not stalled, whatever the other two do |
| StallSupervisor.OwnExitCodeIsPassedOn | internal/sync/liveness.go:382-420 | a process with a sign of life in every k ticks ends with 0, its own exit code, or -1 if waiting failed otherwise |
| StallSupervisor.KillCodesIff | internal/sync/liveness.go:382-420 | -2 means a stall and -3 a cancellation before any stall, if the process itself does not end with these |
| StallSupervisor.BoundedStderr.Write | internal/sync/liveness.go:50-79 | the buffer is the first cap bytes of everything written; truncated says that bytes were lost or something was written to a full buffer |
| InstallEvents.Pipeline.MaybeSendFirstSeen | internal/telemetry/install_events.go:194-244 | the new meta table and events are the specified ones, and only a missing build key is reported |
| InstallEvents.Pipeline.MaybeSendUpgrade | internal/telemetry/install_events.go:252-326 | the new meta table and events are the specified ones, and only a missing build key is reported |
| InstallEvents.Pipeline.SendInstallEventsIfDue | internal/telemetry/install_events.go:110-189 | the gates, then first_seen, then upgrade; the returned error names exactly the kinds whose POST failed for want of the build key |
| InstallEvents.HistoryWellFormed | internal/telemetry/install_events.go:110-326 | over any run of startups with working meta writes: first_seen succeeds at most once, upgrades come after it and form a chain of differing versions, each kind fails at most five times between successes with one dead letter at the fifth, and the stored counters agree |
| InstallEvents.StartupAdds | internal/telemetry/install_events.go:110-326 | in every state that a run with working meta writes reaches, the history of events and the version on record decide what a startup posts |
| InstallEvents.NothingWithoutConsent | internal/telemetry/install_events.go:122-144 | over any run of startups without consent or build key nothing is posted and nothing stored |
| InstallEvents.InstallIdIsStored | internal/telemetry/install_events.go:146-172 | a startup that passes the gates stores a new install id exactly when there is none |
| InstallEvents.TransitionGetsTheRest | internal/telemetry/install_events.go:271-320 | from any reachable state, while upgrade POSTs are refused, startups at other versions try min(their number, five less the failures since the last success) POSTs |
| InstallEvents.BudgetIsFreshIff | internal/telemetry/install_events.go:272-283 | so a transition gets five attempts exactly when no upgrade POST has failed since the last success, that is when the stored counter is 0 |
| InstallEvents.OldFailuresSpendNewBudget | internal/telemetry/install_events.go:272-320 | a run from an empty meta table in which four failures at version 1.1 leave one attempt for version 1.2 |
| InstallEvents.DeadLetterIsFinal | internal/telemetry/install_events.go:272-283 | a dead-lettered upgrade event stays silent over any further run, and the recorded version stays |
| InstallEvents.FailingWritesRepeatFirstSeen | internal/telemetry/install_events.go:37-43 | with failing meta writes first_seen succeeds twice |
| InstallEvents.UnreadableStampSendsAgain | internal/telemetry/install_events.go:293-298 | a stored time stamp that cannot be read makes first_seen go out a second time |
| WebhookIncidents.WebhookSender.RecordAnomaly | internal/notify/webhook.go:142-240 | an event has the specified effect on incidents and alerts |
| WebhookIncidents.WebhookSender.CheckResolvedIncidents | internal/notify/webhook.go:244-285 | the walk in arbitrary order takes out exactly the silent incidents, each once |
| WebhookIncidents.EventsAccounted | internal/notify/webhook.go:142-285 | in every run, for every key, opened and resolved alerts alternate, and every event is counted once, in a resolved alert or in the open incident |
| WebhookIncidents.EscalationsInTime | internal/notify/webhook.go:209-223 | with events in order of time, escalations times the period never exceed the time from opening to last event |
| WebhookIncidents.CheckResolvesSilent | internal/notify/webhook.go:255-264 | a check resolves an incident, with its count, exactly when it has been silent long enough |
| WebhookIncidents.IncidentByHistory | internal/notify/webhook.go:142-285 | in every run, the open incident of a key is the one that its events and checks tell, with its times, detail, count and escalations |
| WebhookIncidents.AlertsByHistory | internal/notify/webhook.go:142-240 | in every run, an event opens, escalates or is only counted as the history of events and checks says |
| WebhookIncidents.ResolutionsByHistory | internal/notify/webhook.go:244-285 | in every run, a check resolves an incident exactly when one is open and its last event is long enough ago; the alert has the number of its events |
| LogRotation.RotatingWriter.RotateFiles | internal/logging/logging.go:72-88 | the countdown of renames shifts every backup by one and drops the last |
| LogRotation.BackupsWithinLimitIff | internal/logging/logging.go:72-88 | after a rotation the backups stay within the configured number exactly when it is at least 1 |
| LogRotation.ZeroBackupsKeepOne | internal/logging/logging.go:72-88 | with 0 configured, the rotated log is kept as a backup |
| LogRotation.RotatingWriter.WriteBytes | internal/logging/logging.go:57-70 | rotates when the write would not fit, and reports all bytes or none |
| LogRotation.WrittenAfterFailureIff | internal/logging/logging.go:57-88 | after a rotation whose reopening failed, a write gets through exactly when it would not have fitted into the log before that rotation; a shorter one is lost |
| LogRotationRuns.AlwaysSuffixOfStream | internal/logging/logging.go:57-88 | after any run of writes, restarts and failed reopenings, the backups from oldest to newest and then the log are a suffix of what was there before and was written since |
| LogRotationRuns.BackupsAreLastGenerations | internal/logging/logging.go:72-88 | if reopening succeeds, backup i holds the i-th generation before the current one, for as many as are kept |
| LogRotationRuns.GenerationsAreStream | internal/logging/logging.go:57-88 | the generations in order are the written stream |
| LogRotationRuns.GenerationsFit | internal/logging/logging.go:57-70 | a generation exceeds the limit only if it is a single write |
| ToastLimiter.Notifier.RefillTokens | internal/notify/notify.go:67-79 | adds the earned tokens up to the capacity |
| ToastLimiter.Notifier.Send | internal/notify/notify.go:84-108 | sends exactly when enabled, the key's gap is over and a token is left |
| ToastLimiter.TokensPayForToasts | internal/notify/notify.go:67-108 | toasts of a run are paid for by the tokens in the bucket and the periods since the last refill |
| ToastLimiter.WindowBound | internal/notify/notify.go:67-108 | in any window of a run at most the capacity plus one toast per started 30 seconds is sent |
| ToastLimiter.SameKeyGap | internal/notify/notify.go:89-103 | two toasts with the same key are at least the minimum gap apart |
| ToastLimiter.TooSoonIff | internal/notify/notify.go:89-103 | after any run, an attempt is too soon exactly when a toast of its key was sent less than five minutes before |
| ToastLimiter.RefusedOnlyWhenBusy | internal/notify/notify.go:67-108 | a toast is refused for want of a token only if, since some earlier moment, ten were sent and at least one in each 60 seconds beyond those |
| ToastLimiter.RefillLosesIff | internal/notify/notify.go:67-79 | two refills earn less than one over the same time exactly when their remainders make up a period |
| ToastLimiter.EverySecondIsRefused | internal/notify/notify.go:67-79 | of attempts 29 seconds apart every second one is refused |
| LikeEscape.EscapeFirst | internal/state/state.go:536-541 | the three replacements put one backslash before each special character and nothing else |
| LikeEscape.EscapedMatchesLiterally | internal/state/state.go:534-541 | an escaped name in front of any pattern matches itself only |
| LikeEscape.UnderDirExactly | internal/state/state.go:546-554 | the query's pattern accepts exactly the paths that begin with the directory and a slash, up to ASCII case, for every directory name |
| LikeEscape.SelectsUnderDir | internal/state/state.go:543-554 | every path of the directory is selected, and another one exactly when its directory differs in ASCII case only |
| LikeEscape.OtherCaseIsSelected | internal/state/state.go:543-554 | asking for src selects a file under SRC |

## Left out

- The clock, goroutine wake-ups and the helper that wakes a waiting Dequeue on cancellation: time and cancellation are inputs of each pass, and what a pass waits for is its result.
- FairQueueObject.FairQueue.DequeuePass: one turn of the loop, not the loop itself, which need not end.
- FairQueueObject.FairQueue.RecordFailure: the failure counter does not wrap around; that takes 2^63 failures.
- FairQueueObject.FairQueue.SetAdaptiveCooldown: one and a half times the sync duration is taken exactly, which the program's floating point also gives for durations below 2^52 nanoseconds.
- The 64-bit filter generation and the durations multiplied in the webhook are unbounded integers here.
- AnomalyRecorder.NeverPanics: Record, Close and the loop are steps of a state machine rather than methods of a class, since the property is about their interleavings; writing, counting by kind and severities are not modelled.
- FilterRules.GeneratedFileAgrees: takes as given that rclone reads the translated line of each rule that compiles as gitignore reads the rule, and control-file names literally; neither glob language is modelled.
- FilterReload.NewIsValid: takes the pattern that the ignore library names in an error to be the rule as it was read, so that removing bad patterns removes exactly the rules that do not compile.
- FilterReload.CutFileLosesRulesIff: a cut falls between characters; one inside a character's bytes is not modelled.
- FilterReload.ReloadsConverge: takes different contents to have different hashes, as SHA-256 is meant to give.
- FilterReload.Engine.ReloadRules: reloads run one after the other; two that overlap are not modelled.
- ConfigRoundTrip.AddThenRemoveText: for texts that do not begin with two byte order marks in a row.
- ConfigDocuments.EditsRefineList: for files whose mirrors section has entries as the program writes them and is followed by blank lines and another section or the end, and for names that need no escaping; ConfigSections.RemovalTakesOneEntry and ConfigSections.AdditionGoesLast are about all files.
- ConfigBlock.BlockReadsBack: the reader takes a line per field; it is not a YAML parser, and the unquoted delete policy is read literally. The extra rclone flags of a project are not written by the program.
- File locking, atomic replacement and modes of the configuration file, and the file system calls around the edits.
- CanonicalJson.CanonicalText: floating-point numbers, json.Number and invalid UTF-8 are left out, and integers of all Go types are one kind.
- HMAC, HTTP, the PostgreSQL side of the signature, and the bucket tables of telemetry payloads.
- StallSupervisor.RunWithSupervisor: process handles, the start error and the advisory lsjson anomaly are not modelled.
- InstallEvents.TransitionGetsTheRest: for installs that are known and have a version on record, which the first startup sees to.
- InstallEvents.HistoryWellFormed: assumes that meta writes work and stored time stamps can be parsed; the payload of an event is reduced to its versions.
- WebhookIncidents.EscalationsInTime: assumes that events take the lock in the order of their time stamps.
- The texts of alerts, the path sanitizer, the webhook's HTTP client and its address filter.
- LogRotation.RotatingWriter.WriteBytes: renames of existing files succeed, and a write to an open file writes everything.
- ToastLimiter.WindowBound: exact arithmetic in place of floating point, and a clock that does not go back.
- SQLite itself: LIKE is modelled as its documentation describes it.
- CLI commands, reports, services, Windows APIs and the Python scripts.
