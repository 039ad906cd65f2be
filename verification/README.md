# OpenBouncer, modelled

OpenBouncer is a gateway in front of language models: it authenticates and limits callers,
scans what goes in and comes out, and lets administrators edit its configuration under an
audit log. This project models the parts of it that carry state, protocols, parsing or
arithmetic, and proves what they promise. `dafny verify dfyconfig.toml` checks everything.

| module | what it models |
|---|---|
| `HashChain`, `TamperEvidence` | the hash chain over a log file, its verification, and what tampering it notices |
| `ChainLog` | append, trim and checkpoint, as one call and step by step with many writers and with deaths |
| `AdminProtocol` | resource locks around the audit log's lock, before/after entries, roll-back and revert |
| `KeyAdmin` | the stored API keys: loading, lookups, create, update, rotate, delete, revert |
| `BulletLens`, `BulletText`, `ConfigEditor` | the bullet-list editor as a getter and a setter over raw text, what sections, bullets and white space are in the text itself, and the edit of a file |
| `Redaction` | sort-merge-splice redaction against a scan by characters |
| `ToolCalls` | reassembly of streamed tool calls |
| `LeakGuard`, `LeakScan`, `LeakPolicy` | the leak guard on responses and on streams: its functions, its operations, and what they mean for configuration and text |
| `Frames` | the frames of a stream, from upstream lines or backend tokens to the client |
| `RateLimiter`, `Budget`, `Alerting`, `AlertClaims`, `ConcurrencyLimiter` | admission control and alerts over whole runs |
| `Luhn` | the checksum of Annex B of ISO/IEC 7812-1 |

Objects the gateway updates in place are classes whose methods equate their new state with a
function of the old one; what is promised is then proved about these functions, over every
run. Beside that, the methods' contracts say what they do in terms of the stored fields, the
characters and the configuration, by predicates that stand apart from the functions the
methods compute with (`Reports`, `Records`, `Lies`, `Judged`, `Answers`, `ResponseMeans`,
`StreamMeans`, `Streamed` and their like). Interleaved work (log writers, admin writes, limited
requests, alerting replicas) is a state machine: `Execute` runs a schedule of steps, any
schedule, and the results hold of every state it can reach.

## What is assumed

- Hashing is ideal: a hash is the very pair of what came before and what it is of, and so
  injective and never the genesis value.
- A lock does not expire while its holder is inside, and Redis does not fail; a writer's death
  is modelled for the log (`ChainLog`), an unavailable audit lock for the admin writes
  (`AdminProtocol`).
- Regular expressions, checksum and allow-list come in as an arbitrary function from a text to
  candidate matches, JSON decoding as one from a line's data to what the relay looks at, the
  YAML parser and the reload of a configuration as yes-or-no answers.
- Clocks are parameters; where a result needs time not to go back, it says so.

## Where a promise does not hold as it stands

- A line that looks unchained can be inserted in front of a chain that starts on disk without
  being noticed; any other insertion is (`TamperEvidence.InsertionDetected`).
- A reader between the rewrite and the checkpoint of a trim is told the file is broken as soon
  as a chained line has ever been dropped (`ChainLog.WindowVerdict`), and after a writer's
  death the file verifies again only once a call trims (`ChainLog.RecoveryCondition`).
- A key that has never alerted does not alert on a clock below 0. Only an injected clock reads
  that; the default one does not (`Alerting.AlertsExactlyWhen`, `Alerting.SilentBeforeZero`).
- A write whose entry cannot be recorded, the audit log's lock being unavailable, stays, and
  leaves a gap in the history exactly if it changed the file
  (`AdminProtocol.UnrecordedWriteLeavesGap`, `AdminProtocol.SoundThroughoutExactlyWhen`).
- The leak guard raises on a frame whose `choices` is true but has no element 0, such as a
  number. If it does not buffer and has let a frame out, the client is left without a terminal
  frame; in all other cases the discipline holds (`Frames.FrameDiscipline`,
  `Frames.CutOffExample`).
- A revert has no guard: it keeps key management exactly if the entry's `before` had it
  (`KeyAdmin.StepHealth`). Entries of a run that started from a healthy store always have.
- An update that sets the list of models of a key to null is accepted and leaves a file that
  does not load; after that nothing but a revert is accepted (`KeyAdmin.UpdateLoadsUnlessCleared`,
  `KeyAdmin.ClearingModelsBreaksStore`).
- Two custom leak patterns may share a name. Of two matches of the same name and span only the
  first is reported, so that a pattern configured to flag silences a later one configured to
  block; with distinct names none is ever silenced (`LeakPolicy.SharedNameSilences`,
  `LeakPolicy.WantsWithDistinctNames`).
- Writing back what was read normalises a block that was not printed by the editor
  (`BulletLens.GetPut`).
- A stream that broke off and is then redacted reaches the client as if it had ended normally
  (`Frames.InterruptionSurvivesUnlessRewritten`).

## Model

| member | source | states |
|---|---|---|
| HashChain.VerifyChain | app/core/hash_chain.py:112-165 | the verdict on any file, said of the lines' fields: valid exactly if every line behind the leading unchained ones carries the hash before it and its own digest, counts of both kinds exact, and otherwise the first line that does not, with the number of intact chained lines before it |
| HashChain.VerifyLogFile | app/core/hash_chain.py:168-179 | the same with the sidecar checkpoint's hash as what the first line must continue from, if there is one |
| HashChain.VerdictUnique | app/core/hash_chain.py:112-165 | no two verdicts meet that description of the same file, so that it leaves the loop no choice |
| HashChain.IntactGrows | app/core/hash_chain.py:57-62 | appending a line keeps a chain intact exactly if the line continues from its end |
| HashChain.IntactDrops | app/core/hash_chain.py:112-165 | cutting a chain anywhere leaves a chain that continues from the last line cut off |
| TamperEvidence.HashesDeepen | app/core/hash_chain.py:57-62 | along an intact chain no hash ever comes back |
| TamperEvidence.SameEndSameChain | app/core/hash_chain.py:112-165 | two chains from the same base that end in the same hash are the same, entry for entry |
| TamperEvidence.VerifyingFileIsGenuine | app/core/hash_chain.py:112-165 | a file that verifies against the same checkpoint and ends in the same hash as a genuine one has exactly its chained entries |
| TamperEvidence.MovedEntryDetected | app/core/hash_chain.py:112-165 | a later entry standing where an earlier one should makes verification fail, with exactly the entries before it counted as verified |
| TamperEvidence.DeletionDetected | app/core/hash_chain.py:112-165 | deleting any chained entry but the last is detected at its place |
| TamperEvidence.EditDetected | app/core/hash_chain.py:112-165 | replacing any chained entry but the last by anything else is detected, at its place or right behind it if the replacement itself chains on |
| TamperEvidence.InsertionDetected | app/core/hash_chain.py:112-165 | inserting a line in front of any chained entry goes unnoticed exactly if it looks unchained and the chain starts right there on disk |
| ChainLog.LogFile.RecordEntry | app/core/audit.py:133-155 | one record call, said of the fields: the entry holds the payload, the hash of the last line, failing that the checkpoint's, or the genesis hash, and its digest; the file keeps the last lines up to the cap, and if any are cut off the checkpoint names the hash of the last of them and counts them on top of those before |
| ChainLog.LogFile.TrimIfNeeded | app/core/guardrail_events.py:197-213 | nothing up to the cap; above it the last lines up to the cap are kept and the checkpoint records the last dropped hash and how many more were dropped |
| ChainLog.LogFile.WriteCheckpoint | app/core/hash_chain.py:72-84 | the dropped count accumulates over checkpoints |
| ChainLog.PreviousIsEndOfHistory | app/core/hash_chain.py:87-100 | in every reachable state the next entry will chain on to the end of the full history, even where a death has left the checkpoint behind |
| ChainLog.AlwaysInvariant | app/core/audit.py:133-184 | any interleaving of any writers' steps, deaths included, keeps the disk a suffix of one chained history with its lock discipline |
| ChainLog.VerdictOf | app/core/hash_chain.py:112-179 | a reachable file verifies exactly if the checkpoint is up to date or only unchained lines were ever dropped, and then each line on it is counted for what it is |
| ChainLog.LogAlwaysVerifies | app/core/audit.py:133-184 | without deaths, for any writers, interleaving, caps and starting file, the file verifies whenever no writer is between rewrite and checkpoint, and dropped count plus lines on disk is everything ever there |
| ChainLog.LogHoldsWhatWasAppended | app/core/audit.py:133-155 | in every run, deaths included, the history is the starting lines and then one line for each payload appended, in order, and the file is what follows the lines dropped |
| ChainLog.WindowVerdict | app/core/audit.py:167-184 | between rewrite and checkpoint the file verifies exactly if no chained line has been dropped |
| ChainLog.CallIsRecord | app/core/audit.py:133-155 | a writer's steps taken without interruption amount to the one record call |
| ChainLog.CallsInARow | app/core/audit.py:133-155 | any payloads can be recorded one behind the other by an undisturbed writer, which leaves what that many record calls leave |
| ChainLog.RecoveryCondition | app/core/audit.py:167-184 | after any deaths a completed call leaves a file that verifies exactly if it trims, or the checkpoint was up to date, or only unchained lines were dropped |
| ChainLog.CrashRecovery | app/core/audit.py:167-184 | after a death between rewrite and checkpoint the next completed call with the same cap leaves a file that verifies, and only the lines that death left uncounted stay uncounted |
| AdminProtocol.LocksAgree | app/core/audit.py:223-231 | the lock name a revert works out is the one the resource's edits take, exactly unless a guardrails configuration's id is empty |
| AdminProtocol.LocksDistinct | app/core/distributed_lock.py:76-118 | different resources never share a lock, and none is the audit log's |
| AdminProtocol.NextKeepsInvariant | app/core/audit.py:234-273 | every step of every writer keeps locks with their holders, snapshots true, histories gapless and reverts faithful |
| AdminProtocol.MutualExclusion | app/core/distributed_lock.py:76-118 | in every reachable state no two writers are inside one resource, nor two inside the audit log |
| AdminProtocol.GaplessHistory | app/core/audit.py:106-155 | in every reachable state, of a resource that no unrecorded write has changed, each entry's before is the previous one's after, the first one's the original file, and the file is the last after unless a write is under way, rolled-back edits included |
| AdminProtocol.RevertsRestore | app/core/audit.py:234-273 | a revert's after is the before of the entry it is of; the revert of a revert restores what the resource held when the first one came |
| AdminProtocol.NeverDeadlocked | app/core/distributed_lock.py:76-118 | while any writer is busy, some busy writer can take a step that is not a failure, in every reachable state |
| AdminProtocol.UnrecordedWriteLeavesGap | app/auth/keys.py:297-309 | in every state of the protocol, a write of a so far unbroken resource that cannot be recorded leaves log and file in step exactly if it did not change the file |
| AdminProtocol.SoundThroughoutExactlyWhen | app/core/audit.py:106-155 | over any run, a resource's history is gapless and in step with its file after every step of the run exactly if no write that changed its file went unrecorded |
| AdminProtocol.UnrecordedRunEnds | app/core/distributed_lock.py:95-105 | the six steps of an edit of the stored keys in which that happens, for any two texts |
| AdminProtocol.WorkGetsDone | app/core/audit.py:234-273 | an edit or revert that nothing stands in the way of runs to its end: the file holds the new text, one entry tells what it replaced, the log keeps its cap, and all locks are free again |
| KeyAdmin.KeyStore.constructor | app/auth/keys.py:155-158 | both lookups are built over all keys, the last of several equal ones winning |
| KeyAdmin.LookupsConsistent | app/auth/keys.py:139-167 | for distinct records, looking up any key either way gives that key exactly if ids and hashes are unique |
| KeyAdmin.LoadRoundTrip | app/auth/keys.py:110-152 | loaded keys are valid, unique and in lower case, written back they load as themselves, and loading does not change who has keys:write |
| KeyAdmin.LoadMeans | app/auth/keys.py:110-152 | a file loads exactly if every record lists a model and has a hash of 64 hexadecimal digits, a newline behind them going unnoticed, and ids and lower-cased hashes are unique; what it loads as is the records with their hashes in lower case |
| KeyAdmin.KeyFile.CreateKey | app/auth/keys.py:318-335 | refused for a file that does not load, a taken id or a taken hash; otherwise one more key and one entry, or an error and no entry, the key staying, if the audit log's lock cannot be had; any other failure leaves file and log as they were |
| KeyAdmin.KeyFile.UpdateKeyFields | app/auth/keys.py:338-375 | refused as stranding exactly if, of the stored records, this key is an admin or lists keys:write, would be and do neither afterwards, and no key of another id is or does; otherwise refused for an unknown id or a taken hash; if accepted the named fields of one key change and one entry is recorded if it can be |
| KeyAdmin.KeyFile.RotateKey | app/auth/keys.py:402-415 | an update of the hash alone |
| KeyAdmin.KeyFile.DeleteKey | app/auth/keys.py:378-399 | refused as stranding exactly if, of the stored records, this key is an admin or lists keys:write and no key of another id is or does; otherwise refused for an unknown id; if accepted one key less and one entry if it can be recorded |
| KeyAdmin.KeyFile.RevertEntry | app/core/audit.py:253-273 | the entry's before is written back unchecked and recorded as a new entry if it can be |
| KeyAdmin.UpdateRefusedExactlyWhenStranding | app/auth/keys.py:239-249 | an update of the stored file is refused as stranding exactly if the key is an admin or lists keys:write, by the update's fields it would no longer, and no key of another id is an admin or lists it |
| KeyAdmin.DeleteRefusedExactlyWhenStranding | app/auth/keys.py:389-392 | likewise a deletion, exactly if the key is an admin or lists keys:write and no key of another id is an admin or lists it |
| KeyAdmin.OperationsOnLookup | app/auth/keys.py:318-415 | seen through the lookup by id, create adds one key, update and rotate replace one, delete removes one, and nothing else changes |
| KeyAdmin.CreateMeans | app/auth/keys.py:318-335 | of a loaded list: refused exactly for a taken id, or failing that a taken hash, and else the record is added behind the others |
| KeyAdmin.UpdateMeans | app/auth/keys.py:338-375 | every refusal of an update exactly, and else the list with the named fields of the one key changed and nothing else |
| KeyAdmin.DeleteMeans | app/auth/keys.py:378-399 | every refusal of a deletion exactly, and else the list without the one key, in its order |
| KeyAdmin.UpdateLoadsUnlessCleared | app/auth/keys.py:361-369 | an accepted update keeps a key with keys:write, and its file loads again exactly if the list of models was not cleared |
| KeyAdmin.ClearingModelsBreaksStore | app/schemas/admin.py:65-71 | setting a key's models to null is accepted and recorded, the file no longer loads, and then only reverts are accepted |
| KeyAdmin.StepHealth | app/core/audit.py:253-273 | an accepted operation on a healthy store leaves it healthy exactly if it is no update clearing the models and no revert to an unhealthy before |
| KeyAdmin.NeverStranded | app/auth/keys.py:222-249 | from a file that loads and has a key that is an admin or lists keys:write, every run of operations, reverts of the run's own entries included, keeps it so, whichever of them could be recorded, and so do all snapshots recorded |
| KeyAdmin.HealthyMeans | app/auth/keys.py:155-176 | a healthy store has unique ids and hashes, consistent lookups, and a keys:write key that both lookups find |
| BulletLens.PutGet | app/guardrails/editable_config.py:150-219 | for any text in which every section is found and any clean items, re-reading the spliced text gives exactly the items, section by section |
| BulletLens.PutFrame | app/guardrails/editable_config.py:285-289 | all text outside the replaced blocks, and each block's indentation, stay as they were, and the blocks are the items printed with it |
| BulletLens.PutPut | app/guardrails/editable_config.py:285-289 | a later edit leaves nothing of an earlier one behind |
| BulletLens.PutIdempotent | app/guardrails/editable_config.py:285-289 | the same edit twice changes nothing further |
| BulletLens.TextIsInterleaved | app/guardrails/editable_config.py:150-195 | the text is its outside parts and its blocks in turn, so that the frame says all there is to say |
| BulletLens.GetIsClean | app/guardrails/editable_config.py:150-195 | every item that is read is one that printing would give back |
| BulletLens.GetPut | app/guardrails/editable_config.py:150-219 | writing back what was read changes nothing exactly if the blocks were written the way the editor prints them |
| BulletText.BulletMeans | app/guardrails/editable_config.py:172-190 | a line is a bullet exactly if it is blanks or tabs, a dash, at most one white character, and the item followed by white space, white being the code points Python counts so |
| BulletText.BeginsMeans | app/guardrails/editable_config.py:150-170 | a section's list begins behind the line of the first header at or behind the first anchor, or at the end of the text |
| BulletText.ReadIsList | app/guardrails/editable_config.py:172-190 | the block read is a list of exactly its items, line by line in one indentation, and the line behind it does not belong to it |
| BulletText.PrintLists | app/guardrails/editable_config.py:214-219 | the block printed is one line for each item, its indentation, a dash, a space and the item |
| BulletText.TrimmedUnique | app/guardrails/editable_config.py:198-199 | there is only one way to trim a text of white space at both ends |
| ConfigEditor.FindBullets | app/guardrails/editable_config.py:150-195 | finds a section behind the cursor exactly if anchor, header and a first bullet are there, its items being all of the list that lies right behind the header's line; otherwise says which of the three is missing |
| ConfigEditor.ReadBullets | app/guardrails/editable_config.py:172-190 | the line loop reads the longest run of bullets of one indentation |
| ConfigEditor.ValidateItems | app/guardrails/editable_config.py:198-211 | accepts exactly the lists of 1 to 100 items each of which, trimmed of white space at both ends, has 1 to 500 characters and no line break, and returns the items so trimmed; an empty and an overlong list are told apart, and otherwise the reason given is what is wrong with the first faulty item |
| ConfigEditor.SpliceAll | app/guardrails/editable_config.py:283-289 | the loop with its moving cursor succeeds exactly if all sections are found one behind the other, and then is the setter |
| ConfigEditor.ReadAll | app/guardrails/editable_config.py:296-303 | the re-reading loop likewise is the getter |
| ConfigEditor.ReadEditableSections | app/guardrails/editable_config.py:222-239 | fails exactly for an unknown configuration or a section not found, and otherwise gives every field's items |
| ConfigEditor.ConfigFile.WriteEditableSections | app/guardrails/editable_config.py:242-342 | succeeds exactly if everything asked for holds and the edit can be recorded, and then writes the spliced text, records one entry and returns the items, each trimmed; the blocks written are the printed items and the rest of the text is what it was; if only recording fails the new text stays without an entry; every other failure comes exactly when its check fails and leaves file and log as they were; the mismatch failure never comes |
| ConfigEditor.EditMeans | app/guardrails/editable_config.py:242-289 | an accepted edit returns the trimmed items and rewrites the text block by block with these printed, all text between the blocks staying |
| ConfigEditor.RoundTrip | app/guardrails/editable_config.py:296-307 | an accepted edit re-read gives back the validated items, so that the mismatch branch is dead |
| ConfigEditor.LaterEditWins | app/guardrails/editable_config.py:280-289 | two accepted edits leave the text the second alone would have left |
| Redaction.SpliceIsScan | app/guardrails/output_leak.py:291-313 | for all in-bounds spans, overlapping, touching, repeated, unordered or empty, sort-merge-splice is the scan by characters: one token per maximal covered run, that of its earliest span |
| Redaction.RedactionKeepsExactlyUncovered | app/guardrails/output_leak.py:303-313 | tokens apart, exactly the uncovered characters survive, once and in order |
| Redaction.MergeSpans | app/guardrails/prompt_injection.py:372-382 | the merging loop over the stably sorted spans |
| Redaction.RedactText | app/guardrails/output_leak.py:303-316 | the splicing loop gives what the scan by characters gives |
| Redaction.RedactSpans | app/guardrails/prompt_injection.py:372-392 | the same with one token for all spans |
| ToolCalls.Accumulator.Accumulate | app/guardrails/output_leak.py:503-545 | merges a frame's fragments slot by slot: a non-empty id, kind or name replaces the slot's, arguments are appended, an entry without an index is skipped, and new slots go behind the others |
| ToolCalls.ArrivedAllOrders | app/guardrails/output_leak.py:534-534 | the order of first arrival names every slot exactly once |
| ToolCalls.SlotIsOwn | app/guardrails/output_leak.py:522-545 | a slot holds what its own fragments alone amount to, and exists exactly if there are any |
| ToolCalls.InterleavingIrrelevant | app/guardrails/output_leak.py:503-563 | fragment sequences with the same fragments per index assemble to the same list |
| ToolCalls.AssembledMeans | app/guardrails/output_leak.py:503-563 | for any fragments, the list assembled has one call for every index that occurs, in index order, with the last id and name given for it, the last kind or function, and all its arguments joined |
| ToolCalls.InOrderOfArrival | app/guardrails/output_leak.py:534-534 | an index kept before another one did occur before it |
| ToolCalls.FrameBoundariesIrrelevant | app/guardrails/output_leak.py:503-545 | how the fragments are spread over frames does not matter |
| ToolCalls.FragmentingRoundTrip | app/guardrails/output_leak.py:548-563 | any list of calls, fragmented and interleaved in any way, accumulates and assembles to itself, in index order |
| LeakScan.ScanTextLoop | app/guardrails/output_leak.py:261-282 | reports, of arbitrary candidates in their order, exactly those inside the text, of a pattern not configured as disabled and not preceded by one of the same name and span, each with the action configured for its pattern |
| LeakGuard.KeptAreFirstOfKey | app/guardrails/output_leak.py:274-282 | a match is reported exactly if it is the first of its category, name and span among those of patterns not disabled |
| LeakGuard.KeysKeptOnce | app/guardrails/output_leak.py:274-282 | no category, name and span is reported twice |
| LeakGuard.OverallIsStrictest | app/guardrails/output_leak.py:285-288 | the overall action is one of the matches' own and none is stricter; without matches it is disabled |
| LeakPolicy.CallWants | app/guardrails/output_leak.py:370-405 | a tool call's arguments ask for a block exactly if they have a reported candidate configured to redact or to block, and never for redaction |
| LeakScan.ApplyOutputLeakGuardrail | app/api/routes/chat.py:131-166 | for every list of choices, configuration and finder: blocked exactly if the guard is on and some content has a reported candidate configured to block, or some call's arguments one configured to redact or block; otherwise a choice's content is redacted exactly if it has one configured to redact, into the text with every reported span replaced by its category's or pattern's token, and everything else goes out as it is |
| LeakScan.RedactChoices | app/guardrails/output_leak.py:423-445 | the loop redacts the content of exactly the choices whose own strictest action is to redact |
| LeakScan.ForwardLive | app/api/routes/chat.py:264-277 | the live loop lets out exactly the frames before the first one it cannot look into, and raises exactly if there is one |
| LeakScan.Buffer | app/api/routes/chat.py:279-283 | the buffering loop raises exactly if there is such a frame, and otherwise has all frames and all calls in order of arrival |
| LeakScan.ScanAccumulatedToolCalls | app/api/routes/chat.py:220-224 | every call's arguments are scanned, in order of arrival, and each match names its call; one configured to redact is reported as one that blocks |
| LeakScan.WithOutputLeakScan | app/api/routes/chat.py:227-329 | for every stream, configuration and finder: raises exactly if the guard is on and a frame cannot be looked into, having let out the frames before it unless something is configured to redact or block; otherwise blocked exactly if the stream's text has a reported candidate configured to block or some call's joined arguments one configured to redact or block; collapsed into the redacted text and the assembled calls exactly if the text has one configured to redact; and else let out as it came |
| LeakGuard.LiveIsSound | app/guardrails/output_leak.py:448-462 | where nothing is held back, no match, in content or tool calls, could have asked for more than a flag |
| LeakGuard.OrderIrrelevant | app/api/routes/chat.py:220-224 | the action depends on no order and no index of the calls, only on which texts are among their arguments |
| LeakGuard.SameAction | app/api/routes/chat.py:281-286 | a one-choice stream, scanned in order of arrival, and the response it amounts to, scanned in index order, are found to deserve the same action |
| LeakGuard.SameContent | app/api/routes/chat.py:302-308 | and the same spans of their text |
| LeakGuard.StreamAgreesWithResponse | app/api/routes/chat.py:227-329 | for every configuration, finder and stream: the guard raises exactly if it is on and some frame's choices cannot be looked into; otherwise stream and response are blocked alike with none of the model's frames released; redacted alike, in one frame with the response's redacted text and its tool calls; or both unchanged |
| LeakGuard.StreamingAResponseAgrees | app/guardrails/output_leak.py:423-563 | for any response, its text in any pieces and its calls in any fragments, interleaved in any way: unless the guard raises, guarding the stream agrees with guarding that response |
| LeakPolicy.GuardedResponseMeans | app/api/routes/chat.py:131-166 | what LeakGuard computes for a response is what the configuration, the candidates and the characters alone call for, escalation inside tool calls included |
| LeakPolicy.GuardedStreamMeans | app/api/routes/chat.py:227-329 | likewise for a stream, from its text, its fragments and its configuration |
| LeakPolicy.SpansMean | app/guardrails/output_leak.py:291-313 | the spans redacted are those of the candidates reported, in their order, each with the token of its category, or a custom pattern's name in capitals |
| LeakPolicy.WantsWithDistinctNames | app/guardrails/output_leak.py:261-282 | where no two custom patterns share a name, a text asks for an action exactly if it has any candidate inside it whose pattern is configured to it |
| LeakPolicy.SharedNameSilences | app/guardrails/output_leak.py:274-282 | where two share one, a pattern configured to block is silenced by an earlier one configured to flag |
| Frames.UpstreamStream.Next | app/upstream/client.py:163-206 | the line loop pulled frame by frame: each call yields the next frame of the whole, usage is always that of the last usage chunk read, and it ends exactly with the terminal frame |
| Frames.YieldedIsPrefix | app/upstream/client.py:163-206 | a client that leaves early has been yielded a prefix of the whole |
| Frames.Drain | app/upstream/client.py:163-206 | pulled to the end: one frame, carrying its line's data whole, for every line before the end that decodes and is no usage chunk or was asked for, in order, and then the terminal frame, behind an error exactly if the connection broke off before the end; the text and the fragments read from them are those of these lines' deltas, one after the other; the usage is that of the last usage chunk before the end |
| Frames.UpstreamMeans | app/upstream/client.py:163-206 | the same of every upstream, said of its lines and what they decode to |
| Frames.UsageMeans | app/upstream/client.py:177-188 | and of the usage: that of the last line before the end that reads as a chunk with a usage and an empty list of choices, and none exactly if no line does |
| Frames.UsageIsLastRead | app/upstream/client.py:177-188 | the usage captured is that of the last usage chunk, and there is none exactly if there was no such chunk |
| Frames.SwallowedAsIfAbsent | app/upstream/client.py:178-192 | swallowing usage chunks yields exactly what lines without them would have, whatever was asked for |
| Frames.OpenStreamWithRetries | app/upstream/client.py:211-238 | tries until an attempt is not retryable, at most once more than the retries allowed, and gives up exactly if all of these were retryable |
| Frames.StreamChatCompletion | app/upstream/client.py:154-209 | frames are yielded exactly if some attempt within the limit opens with a status below 400, and then are those Drain describes; otherwise an error comes before any frame and no usage, the one for an unavailable upstream if every attempt was retryable |
| Frames.StreamResponse | app/guardrails/service.py:532-625 | the answer in one frame, or a text frame for each token up to the first in-band error or the end, closed by that error, an interruption or a stop; an error before any frame exactly if the answer fails or is interrupted before the first token; usage exactly if there is no error, the prompts' counts added up and the count of the text sent |
| Frames.StreamTokens | app/guardrails/service.py:579-625 | the token loop: text frames up to the first in-band error, an interruption or the end, each closed in its way |
| Frames.GuardKeepsDiscipline | app/api/routes/chat.py:227-329 | what the guard makes of any well-ended source: cut off, refused or whole, each exactly when |
| Frames.FrameDiscipline | app/api/routes/chat.py:227-372 | for every upstream, every interruption and every configuration: the client is cut off without a terminal frame exactly if the guard is on, need not buffer, and a line whose choices it cannot look into comes before the end and behind a frame; otherwise it sees an error before any frame, or frames of which exactly the last is the terminal one |
| Frames.RailsDiscipline | app/guardrails/service.py:560-625 | from the guardrails backend the client is never cut off: an error before any frame exactly if the backend raises, and else well-ended frames |
| Frames.CutOffExample | app/guardrails/output_leak.py:483-485 | two lines, the second with 5 for its choices, that cut a client off behind the first |
| Frames.WrapAsStreamingResponse | app/api/routes/chat.py:344-372 | an error before the first frame refuses the request and closes nothing; otherwise the client receives as much as it takes of what the guard lets through, an empty stream being the terminal frame, and the closing action runs exactly once if it takes any frame, and never if it takes none |
| RateLimiter.RateLimiter.Check | app/auth/rate_limiter.py:45-59 | counts the request in the key's window, begun anew when it is over, and lets it through exactly up to the limit |
| RateLimiter.IntervalBound | app/auth/rate_limiter.py:45-59 | any half-open interval of k windows lets through fewer than (k+1) times the limit of a key, whatever the traffic |
| RateLimiter.IntervalBoundIsTight | app/auth/rate_limiter.py:45-59 | for every positive limit, window and number of windows and every start there is a trace whose interval lets through one less than (k+1) times the limit |
| RateLimiter.WindowBound | app/auth/rate_limiter.py:45-59 | a window lets through its first requests up to the limit and no others |
| RateLimiter.OtherKeysHaveNoEffect | app/auth/rate_limiter.py:45-59 | a key's bucket and its admissions are those of its own requests alone |
| Budget.BudgetTracker.Record | app/auth/budget.py:93-101 | positive costs are added to the key's day and month, others change nothing |
| Budget.BudgetTracker.Check | app/auth/budget.py:103-118 | passes exactly while the positive tokens recorded for the key on that date, and in that year and month, add up to less than the limits there are |
| Budget.LetInExactlyWhen | app/auth/dependency.py:93-117 | over every run, a request is let in exactly if the positive tokens of the key's earlier finished requests on that date add up to less than the daily limit, if there is one, and those of that year and month to less than the monthly one |
| Budget.DailyOvershoot | app/auth/dependency.py:93-117 | with at most n requests between check and record and at most c tokens each, no day exceeds the limit less one plus n times c |
| Budget.MonthlyOvershoot | app/auth/dependency.py:93-117 | likewise no month |
| Budget.MonthIsSumOfDays | app/auth/budget.py:93-101 | each month's total is the sum of its days' totals |
| Alerting.AlertTracker.RecordBlock | app/auth/alerting.py:149-169 | updates window, counts and cooldown, and decides with the counts of the window |
| Alerting.BucketIsCurrentWindow | app/auth/alerting.py:149-162 | the bucket is the key's current window as defined on the history, guardrail by guardrail |
| Alerting.AlertsExactlyWhen | app/auth/alerting.py:163-169 | a block alerts exactly if its window meets the threshold and the last alert is a cooldown ago, or there was none and the clock reads at least 0 |
| Alerting.AlertReportsWindow | app/auth/alerting.py:163-169 | an alert reports exactly the window's blocks of each guardrail, and they meet the threshold |
| Alerting.AlertsSpaced | app/auth/alerting.py:163-169 | two alerts for one key are at least one cooldown apart, in any run |
| Alerting.SilentBeforeZero | app/auth/alerting.py:163-165 | on an injected clock below 0 a key that has never alerted stays silent |
| AlertClaims.AtMostOneDecisionPerCooldown | app/auth/alerting.py:198-234 | however replicas interleave, the shared claim spaces decisions at least one cooldown apart, and each saw the threshold met |
| AlertClaims.ClaimsExactlyWhen | app/auth/alerting.py:198-221 | in any run, a replica that reads the shared counts goes on to claim exactly if the blocks since the last pause of a window meet the threshold and their window is not over, and has seen exactly these blocks |
| AlertClaims.DecidesExactlyWhen | app/auth/alerting.py:221-234 | a claim decides exactly if no decision was made within the last cooldown, and no other step decides |
| AlertClaims.BlocksGetDecided | app/auth/alerting.py:198-234 | an idle replica that counts a block and reads the counts can decide, if they meet the threshold and no decision was made within the last cooldown |
| AlertClaims.ThresholdDecides | app/auth/alerting.py:198-234 | for any threshold, as many blocks counted by one replica at one time lead to exactly one decision, which reports them all |
| ConcurrencyLimiter.ModelConcurrencyLimiter.Arrive | app/core/registry.py:101-124 | a request is let straight in or queued behind the others |
| ConcurrencyLimiter.ModelConcurrencyLimiter.Cancel | app/core/registry.py:101-124 | a cancelled request leaves the queue, and a permit it was handed goes on to the next |
| ConcurrencyLimiter.ModelConcurrencyLimiter.Leave | app/core/registry.py:101-124 | a permit given back goes to the request longest waiting |
| ConcurrencyLimiter.AlwaysAccurate | app/core/registry.py:101-124 | under any interleaving both gauges are the requests inside and waiting, free plus handed-out permits are the limit, and never more than that are inside |
| ConcurrencyLimiter.WaitingMeansBusy | app/core/registry.py:101-124 | while requests wait, every permit is in use or about to be |
| ConcurrencyLimiter.FirstComeFirstServed | app/core/registry.py:101-124 | under any interleaving, a request that is let in arrived before every request still waiting then |
| ConcurrencyLimiter.EntersAndPassesOn | app/core/registry.py:101-124 | a request gets in at once exactly if none waits and the limit is not reached, and one that leaves lets in the one that has waited longest |
| ConcurrencyLimiter.NobodyIsStuck | app/core/registry.py:101-124 | a waiting request can always leave the queue, one let in can go in, one inside can leave |
| ConcurrencyLimiter.FirstOnesEnter | app/core/registry.py:101-124 | for any limit and any requests that arrive one behind the other, the first ones up to the limit are inside and the others wait in that order |
| Luhn.LuhnValid | app/guardrails/output_leak.py:177-186 | the loop decides whether the digits, every second one from the right doubled and its digits added up, sum to a multiple of 10 |
| Luhn.SingleDigitErrorDetected | app/guardrails/output_leak.py:177-186 | changing one digit of a valid string makes it invalid |
| Luhn.AdjacentSwapDetected | app/guardrails/output_leak.py:177-186 | swapping two neighbours of a valid string leaves it valid exactly if they are equal or 0 and 9 |
| Luhn.CheckDigitUnique | app/guardrails/output_leak.py:177-186 | exactly one final digit completes any prefix |

## Left out

- HTTP, routing, authentication, metrics, logging, webhook delivery and the user interface.
- Regular expressions, the encoded-text decoding, JSON, YAML and SHA-256 themselves (see "What is assumed").
- Redis variants of the rate limiter and the budget, and lock expiry under a running holder.
- Of the Redis alert tracker, keys other than the one: its counts and its claim are those of a single key.
- Message content that is a list of parts, and streams of more than one choice: only a single text is guarded.
- The prompt-injection filter beyond redacting a text: scanning scopes and its own action resolution have the leak guard's shape.
- Files that do not exist yet: the admin writes start from files that are there.
- The cache of loaded keys and configurations, which is cleared after every recorded write.
- Validation of an update's other fields by the request schema; a null flag or limit is the default it loads back as.
- Unicode digits in the checksum: candidates are digits 0 to 9.
- ConfigEditor.ConfigFile.WriteEditableSections: of several faulty fields it is not said which one the reason given is about; that is the first in the request's order, which the map of fields does not have.
- Frames.WrapAsStreamingResponse: the guard's output is relayed as a whole; that a live stream is pulled no further than the client reads is stated of the upstream generator alone (Frames.UpstreamStream.Next).
- Frames.FrameDiscipline: a client that leaves receives no terminal frame; it has received a prefix (Frames.YieldedIsPrefix).
- RateLimiter.IntervalBound: with a limit of 0 the bound is not strict, both sides being 0.
