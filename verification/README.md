# Verified model of the ros2_medkit fault manager

A Dafny 4.11 model of the fault manager's persistent state and of the protocols around it, with proofs
about whole runs and about pairs of implementations that must agree. `dafny verify dfyconfig.toml`
checks all of it.

| modules | part of the system |
|---|---|
| `AuditCanonical`, `AuditLog`, `AuditSeals` | the hash-chained audit log: canonical text, append, rotation, restart, verification |
| `AuditTrail`, `RequestEffects`, `AuditedRuns` | what each request does, which fault transitions the node writes to that log, and what the file tells of them |
| `Debounce`, `ThresholdResolver` | the debounce state machine and the per-entity thresholds it is given |
| `FaultStore`, `FaultHistory`, `MemoryStorage`, `SqliteStorage`, `StorageAgreement`, `JsonArray`, `SqlText`, `StringSets` | the fault store, once as a specification and twice as the backends implement it |
| `SnapshotRetention`, `RosbagTrim`, `RosbagRows`, `BurstStore`, `RosbagStorage`, `QuotaEviction`, `QuotaExactness` | bounded evidence: freeze frames, recordings per fault, shared bags and the byte quota |
| `RecordingWindow`, `RecordingRuns`, `RecordingClears` | the black-box recording window and the hand-over of its writer |
| `CapturePool`, `CaptureCooldown`, `CooldownSpacing` | the bounded capture queue and the recapture cooldown |
| `ActionBridge`, `ActionDeliveries`, `ActionCalls`, `ActionBridgeNode`, `FaultCodes` | the action status bridge, its deliveries and its fault codes |
| `BandText`, `PythonNumbers`, `DomainBand`, `DomainLocks`, `DomainProcesses` | the DDS domain allocator: band text, port safety, one attempt, competing processes |
| `Basics` | optional values and decimal text |

How things are represented:

- A database is its tables as sequences and maps, and a transaction commits or rolls back as a whole.
- A disk is a set of paths. A writer is named by the bag it was opened for.
- SHA-256 and the string hash are parameters. Results that need no collision say "or exhibits a collision".
- Text bytes that are not valid UTF-8 are units of their own, replaced in canonical text.
- Time, randomness, service readiness, resolved topics, correlated codes and the outcome of I/O are parameters of the steps.
- Classes carry the fields the code updates. Their methods are proved against operations on values, and the lemmas are about those.
- Concurrent parts are steps that one lock, or the single-threaded executor, makes atomic. Runs are all interleavings of them.

Where code and intent part:

- Clearing an unknown code deletes its snapshots in SQLite and keeps them in memory (`SnapshotRetention.ClearAgreesIff`).
- A recording is trimmed by the store that writes it: after the wall clock went back the new row counts as the oldest, so at the default cap the new recording is lost and the old one kept (`BurstStore.BurstRows`, `RecordingRuns.ForwardClockKeepsRows`, `RecordingRuns.ClockStepLosesRecording`, `RecordingRuns.ClockStepSplitsBurst`).
- Two actions whose names differ only in separators or case, or whose long names meet in sixteen bits of hash, share a fault code, and the heal of one takes the fault of the other (`ActionCalls.GeneratedShareIff`, `ActionCalls.AlwaysHeldIff`, `ActionCalls.SpellingHidesFault`).
- A NUL in a reported source or description is stored by SQLite and cut off when read, and a source list with one is lost; memory keeps both (`SqliteStorage.BackendsAgreeExactly`, `StorageAgreement.FirstReportAgreesIff`, `StorageAgreement.NulSourceLost`).
- Without a post-roll window a fault cleared while its bag closes still gets a row (`RecordingWindow.ClosedBagHasItsRowsIff`, `RecordingWindow.ClearedFaultKeepsRow`).
- The storages agree on reactivation exactly for thresholds around minus one, and on timed confirmation exactly for positive due times (`SqliteStorage.ReactivationAgreesExactly`, `SqliteStorage.TimedConfirmationAgreesExactly`).
- The quota is not enforced on bags without a recording id: it is met exactly if the running total leaves room for those passed, less the bags that went early under a shared id (`QuotaExactness.QuotaMetIff`, `QuotaExactness.OverLimitStays`).
- A capture that evicts an older job of its own code erases the cooldown entry it has just written, so the next capture may follow at once (`CooldownSpacing.SelfEvictionBreaksSpacing`, `CooldownSpacing.AlwaysSpacedIff`).
- An attempt to take domains stops after a hundred bound candidates, so on the default band it can end with domains free, unlike the message of the refusal says (`DomainLocks.EnoughFreeSucceedsIff`, `DomainLocks.DefaultBandGivesUpEarly`).
- A vanished action leaves its fault active when its heal cannot be delivered at that moment, and its later success does not heal it (`ActionBridge.PrunedOk`, `ActionCalls.HeldExactly`, `ActionCalls.ForgottenFaultStaysActive`).

## Model

| member | source | states |
|---|---|---|
| AuditCanonical.CanonicalizeInjective | src/ros2_medkit_fault_manager/src/fault_audit_log.cpp:195-220 | Two records have the same canonical text exactly if they have the same sequence number and the same content once malformed bytes are replaced and the severity is cut to a byte. |
| AuditCanonical.LiteralSelfDelimiting | src/ros2_medkit_fault_manager/src/fault_audit_log.cpp:43-45 | A JSON string literal determines both its text and whatever follows it, so no separator or length is needed. |
| AuditCanonical.PlainCharacters | src/ros2_medkit_fault_manager/src/fault_audit_log.cpp:43-45 | Exactly the quote, the backslash and the control characters are written differently, as two or six characters starting with a backslash. |
| AuditCanonical.HashedTextInjective | src/ros2_medkit_fault_manager/src/fault_audit_log.cpp:375-423 | Previous hash and record text are concatenated with nothing in between and still determine each other, for previous hashes of any length. |
| AuditLog.FaultAuditLog.constructor | src/ros2_medkit_fault_manager/src/fault_audit_log.cpp:134-161 | Opening a file resumes from its persisted head, or from genesis when there is none. |
| AuditLog.FaultAuditLog.Append | src/ros2_medkit_fault_manager/src/fault_audit_log.cpp:375-423 | Row and head move together or not at all; a failed transaction leaves file and object as they were; only a committed insert may rotate. |
| AuditLog.FaultAuditLog.RotateIfNeeded | src/ros2_medkit_fault_manager/src/fault_audit_log.cpp:425-505 | Rotation seals the boundary row in an anchor, deletes up to it and drops older anchors, in one transaction that may roll back. |
| AuditLog.FaultAuditLog.Verify | src/ros2_medkit_fault_manager/src/fault_audit_log.cpp:560-681 | Accepts exactly the intact files (every row linked, hashed and contiguous, head on the last row) and otherwise names the first wrong row or, when only the head is wrong, the record the head names, or the newest row if there is no head. |
| AuditLog.RunRepresents | src/ros2_medkit_fault_manager/src/fault_audit_log.cpp:352-505 | After any run of appends, failed appends, committed or rolled-back rotations and restarts the file is the unpruned history cut at some point. |
| AuditLog.RunsStayIntact | src/ros2_medkit_fault_manager/src/fault_audit_log.cpp:352-681 | In every such run verification accepts and counts all rows, they are the tail of the whole history ending at the persisted head, and the only anchor sits right before the oldest of them. |
| AuditLog.RotationBoundsRows | src/ros2_medkit_fault_manager/src/fault_audit_log.cpp:425-505 | After an append whose rotation commits at most the retained number of rows is left, the newest among them. |
| AuditLog.ClashIsCollision | src/ros2_medkit_fault_manager/src/fault_audit_log.cpp:195-220 | Two different records with one record hash are two different texts with one digest. |
| AuditLog.SameHeadSameContent | src/ros2_medkit_fault_manager/src/fault_audit_log.cpp:560-681 | Two accepted non-empty files with the same persisted head agree on every sequence number both retain, or exhibit a digest collision; nothing is assumed of the digest. |
| AuditLog.RetainedRangeIsFixed | src/ros2_medkit_fault_manager/src/fault_audit_log.cpp:560-681 | Under an unchanged head the shorter accepted file is row for row the tail of the longer one, or a collision is exhibited: no edit, deletion or reorder survives. |
| AuditSeals.FirstRecordLinksToZeros | src/ros2_medkit_fault_manager/src/fault_audit_log.cpp:590-600 | An accepted file that starts with record 1 links it to 64 zeros. |
| AuditSeals.OldestLinksToSeal | src/ros2_medkit_fault_manager/src/fault_audit_log.cpp:600-616 | An accepted file that starts right after the sealed row links to the hash of that row. |
| AuditSeals.AcceptedStarts | src/ros2_medkit_fault_manager/src/fault_audit_log.cpp:590-616 | A file with the anchors of a run is accepted only if it starts at record 1 or right after the sealed row. |
| AuditSeals.EmptiedFileNeedsSeal | src/ros2_medkit_fault_manager/src/fault_audit_log.cpp:664-677 | An emptied file is accepted exactly without a head, with a head at zero, or with the sealed row as its head. |
| AuditSeals.EmptyingIsDetected | src/ros2_medkit_fault_manager/src/fault_audit_log.cpp:664-677 | A file of a run cannot be emptied under its own head. |
| AuditSeals.SameHeadAndSealSameFile | src/ros2_medkit_fault_manager/src/fault_audit_log.cpp:560-681 | In every run, every other accepted file with the same head and anchors is record for record the file of the run, or the whole history from record 1 with that file as its tail, or a digest collision is exhibited. |
| AuditSeals.AppendKeepsNewest | src/ros2_medkit_fault_manager/src/fault_audit_log.cpp:375-505 | In every run a committed append leaves exactly the newest rows the retention allows, or all of them without a rotation; one that fails leaves the file as it was. |
| AuditSeals.FailedRotationsCounted | src/ros2_medkit_fault_manager/src/fault_audit_log.cpp:412-423 | Exactly the rotations that were due after a committed append and rolled back are counted. |
| AuditLog.TailTruncationAccepted | src/ros2_medkit_fault_manager/include/ros2_medkit_fault_manager/fault_audit_log.hpp:111-121 | The first documented limit: dropping newest rows and moving the head back is accepted. |
| AuditLog.PrefixTruncationAccepted | src/ros2_medkit_fault_manager/include/ros2_medkit_fault_manager/fault_audit_log.hpp:111-121 | The second documented limit: a cut prefix with a forged matching anchor is accepted. |
| JsonArray.SerializeJsonArray | src/ros2_medkit_fault_manager/src/sqlite_fault_storage.cpp:623-664 | The loop prints every string quoted, with quotes, backslashes and control letters escaped, separated by commas. |
| JsonArray.ParseJsonArray | src/ros2_medkit_fault_manager/src/sqlite_fault_storage.cpp:533-621 | The position-advancing parser reads the literals one after another and stops where no quote follows. |
| JsonArray.LiteralRoundTrip | src/ros2_medkit_fault_manager/src/sqlite_fault_storage.cpp:533-664 | A printed literal reads back as its text and leaves what follows it untouched. |
| JsonArray.PrintParseRoundTrip | src/ros2_medkit_fault_manager/src/sqlite_fault_storage.cpp:533-664 | Parsing the printed list gives back every list of strings: empty strings, quotes, backslashes, commas, brackets and blanks included. |
| JsonArray.EscapeTable | src/ros2_medkit_fault_manager/src/sqlite_fault_storage.cpp:623-664 | Quote and backslash are escaped as themselves, five control characters by a letter, all others not at all. |
| JsonArray.SpacedListParses | src/ros2_medkit_fault_manager/src/sqlite_fault_storage.cpp:533-621 | Blanks before and behind the items of a list make no difference. |
| SqlText.CutExactly | src/ros2_medkit_fault_manager/src/sqlite_fault_storage.cpp:90-93 | A stored text is read back exactly if it is free of NUL: a read stops at the first one. |
| SqlText.ReadBackExactly | src/ros2_medkit_fault_manager/src/sqlite_fault_storage.cpp:90-93 | A list of sources, stored as JSON text in which NUL is not escaped, is read back exactly if every source is free of NUL. |
| SqlText.NulLosesSource | src/ros2_medkit_fault_manager/src/sqlite_fault_storage.cpp:533-664 | A first source with a NUL in it is not read back at all, whatever follows the NUL, unless a closing bracket stands right before it. |
| Debounce.Sanitize | src/ros2_medkit_fault_manager/src/fault_storage.cpp:71-84 | The repaired thresholds are always usable, and the flag says exactly whether a repair was needed. |
| Debounce.SanitizeRepairs | src/ros2_medkit_fault_manager/src/fault_storage.cpp:71-84 | A usable threshold stays; a bad one becomes -1 for confirmation and 3 for healing. |
| Debounce.ReportRespectsLifecycle | src/ros2_medkit_fault_manager/src/fault_storage.cpp:122-258 | Whatever configurations came before: the counter ends in the band of this report, FAILED never heals, PASSED never confirms, CONFIRMED and HEALED are left only for each other, and a cleared fault ignores PASSED. |
| Debounce.StatusFollowsCounter | src/ros2_medkit_fault_manager/src/fault_storage.cpp:45-65 | The status a report leaves, by the counter it leaves: CONFIRMED at the lower threshold, HEALED at the upper one if healing is on, in between the latch if there is one, else PREFAILED below zero, PREPASSED above it, no change at zero; a bypassing FAILED report confirms at any counter. |
| Debounce.WalkIsReflected | src/ros2_medkit_fault_manager/src/fault_storage.cpp:32-42 | Clamping after every step equals the net movement of the word reflected at both thresholds. |
| Debounce.WideWordForgets | src/ros2_medkit_fault_manager/src/fault_storage.cpp:32-42 | A word whose net effect spans the band erases the starting point. |
| Debounce.CounterIsReflectedWalk | src/ros2_medkit_fault_manager/src/fault_storage.cpp:200-251 | The stored counter after any report word under one configuration is that reflected walk, CRITICAL reports included. |
| Debounce.FailedBurst | src/ros2_medkit_fault_manager/src/fault_storage.cpp:200-251 | Status and counter of a tracked fault after n FAILED reports in a row. |
| Debounce.FreshFailedBurst | src/ros2_medkit_fault_manager/src/fault_storage.cpp:122-198 | Counter and status of an unknown or cleared fault after n FAILED reports in a row: PREFAILED until the threshold is reached, CONFIRMED from then on. |
| Debounce.PassedBurst | src/ros2_medkit_fault_manager/src/fault_storage.cpp:200-251 | Status and counter of a tracked fault after n PASSED reports in a row. |
| Debounce.BurstLeans | src/ros2_medkit_fault_manager/src/fault_storage.cpp:45-65 | A burst that latches nothing leaves the status on the side of zero its counter is on. |
| Debounce.BandWidthOfReportsSettles | src/ros2_medkit_fault_manager/src/fault_storage.cpp:32-65 | After any history a band width of FAILED reports confirms and a band width of PASSED reports heals a fault that is not cleared, and no smaller number does so from everywhere. |
| ThresholdResolver.EntityThresholdResolver.constructor | src/ros2_medkit_fault_manager/src/entity_threshold_resolver.cpp:26-32 | The sort keeps the given entries and puts longer prefixes first. |
| ThresholdResolver.EntityThresholdResolver.Resolve | src/ros2_medkit_fault_manager/src/entity_threshold_resolver.cpp:34-55 | The result is the global configuration if nothing matches at a path boundary, otherwise a longest match merged field by field. |
| ThresholdResolver.LongestMatchUnique | src/ros2_medkit_fault_manager/src/entity_threshold_resolver.cpp:34-55 | With distinct prefixes the longest match is unique, so the order of ties does not matter. |
| ThresholdResolver.MatchesAtBoundary | src/ros2_medkit_fault_manager/src/entity_threshold_resolver.cpp:34-55 | A prefix covers exactly itself and what follows it after a slash. |
| ThresholdResolver.OverrideWins | src/ros2_medkit_fault_manager/src/entity_threshold_resolver.cpp:34-55 | A field the override sets wins, every other one is the global one. |
| ThresholdResolver.ValidatedMergesSane | src/ros2_medkit_fault_manager/src/fault_manager_node.cpp:296-316 | The node repairs exactly the overrides that would merge into unusable thresholds, and what is left always merges into usable ones. |
| ThresholdResolver.ResolveConfig | src/ros2_medkit_fault_manager/src/fault_manager_node.cpp:1692-1701 | What reaches the storage is the longest match merged with the global configuration and always has usable thresholds. |
| FaultStore.SeriesIsNewestSuffix | src/ros2_medkit_fault_manager/src/fault_storage.cpp:499-519 | In every run the near-miss series of a code is the newest part, up to the bound, of all FAILED reports that did not leave it CONFIRMED. |
| FaultStore.FaultsIgnoreBound | src/ros2_medkit_fault_manager/src/fault_storage.cpp:122-258 | How many near misses are kept never influences the faults. |
| FaultStore.NoUnsetStatus | src/ros2_medkit_fault_manager/src/fault_storage.cpp:122-258 | In every run a stored fault has a status of the lifecycle. |
| FaultStore.RunsRespectLifecycle | src/ros2_medkit_fault_manager/src/fault_storage.cpp:122-370 | In every run, with reports under any usable configurations, clears, reclassifications and timed confirmations: a stored fault stays stored, CONFIRMED is left only for HEALED or CLEARED and HEALED only for CONFIRMED or CLEARED, only a PASSED report heals, only a FAILED report or the timer on a PREFAILED fault confirms, only a clear or a reclassification clears, only a FAILED report revives, and a report leaves the counter in its own band. |
| FaultHistory.RecordTellsHistory | src/ros2_medkit_fault_manager/src/fault_storage.cpp:122-258 | In every run a code is stored exactly if it was reported FAILED, and its record holds the highest severity, the newest description, every source, the first and last time of the current occurrence, the number of occurrences up to saturation and the last effective PASSED report. |
| FaultHistory.NearMissTellsReport | src/ros2_medkit_fault_manager/src/fault_storage.cpp:499-519 | Exactly the FAILED reports that leave their code not CONFIRMED are near misses, and each records the time, severity, source and threshold of its report and the counter and status it left. |
| FaultHistory.SeriesIsBounded | src/ros2_medkit_fault_manager/src/fault_storage.cpp:499-519 | Without a bound the series holds all near misses, else the last of them, as many as the bound. |
| FaultHistory.CriticalConfirms | src/ros2_medkit_fault_manager/src/fault_storage.cpp:122-258 | A CRITICAL FAILED report under immediate confirmation confirms, whatever came before. |
| FaultHistory.SeverityIsNoSignal | src/ros2_medkit_fault_manager/src/fault_storage.cpp:122-258 | Otherwise the severity of a report has no influence on the debounce. |
| FaultHistory.ClearTakesStatus | src/ros2_medkit_fault_manager/src/fault_storage.cpp:316-337 | A clear makes exactly its own code CLEARED, keeps every counter and near miss, and says whether the code was known. |
| FaultHistory.ReclassifyTakesHealed | src/ros2_medkit_fault_manager/src/fault_storage.cpp:853-876 | A reclassification makes exactly the HEALED faults CLEARED and returns them. |
| FaultHistory.TimerConfirmsBelowThreshold | src/ros2_medkit_fault_manager/src/fault_storage.cpp:349-370 | In every run a fault whose FAILED reports since it was unknown or cleared stay below the threshold is confirmed by the timer exactly once its last failure is old enough, and stays PREFAILED until then. |
| FaultHistory.TimerTakesPrefailedOnly | src/ros2_medkit_fault_manager/src/fault_storage.cpp:349-370 | The timer touches no other status, and nothing when it is off. |
| MemoryStorage.InMemoryFaultStorage.ReportFaultEvent | src/ros2_medkit_fault_manager/src/fault_storage.cpp:122-258 | New, reactivated, tracked and cleared faults: the in-memory branches give the store and the return value of the backend-independent operation. |
| MemoryStorage.InMemoryFaultStorage.RecordNearMiss | src/ros2_medkit_fault_manager/src/fault_storage.cpp:499-519 | The series grows by one record and drops its oldest beyond the bound. |
| MemoryStorage.InMemoryFaultStorage.ClearFault | src/ros2_medkit_fault_manager/src/fault_storage.cpp:316-337 | A known fault becomes CLEARED, an unknown one changes nothing. |
| MemoryStorage.InMemoryFaultStorage.ReclassifyHealedAsCleared | src/ros2_medkit_fault_manager/src/fault_storage.cpp:853-876 | Exactly the HEALED faults become CLEARED and are returned. |
| MemoryStorage.InMemoryFaultStorage.CheckTimeBasedConfirmation | src/ros2_medkit_fault_manager/src/fault_storage.cpp:349-370 | Exactly the PREFAILED faults whose last failure is old enough become CONFIRMED and are returned. |
| SqliteStorage.SqliteFaultStorage.ReportFaultEvent | src/ros2_medkit_fault_manager/src/sqlite_fault_storage.cpp:696-887 | The SQL control flow, with sources stored as JSON text, gives the store as it is read back and the return value of this backend for every input: the shared operation with the restart of a cleared fault clamped from zero and every text cut at its first NUL. |
| SqliteStorage.SqliteFaultStorage.RecordNearMiss | src/ros2_medkit_fault_manager/src/sqlite_fault_storage.cpp:1336-1379 | Insert and trim leave the newest rows of the code and all rows of the others; the source of a record reads back up to its first NUL. |
| SqliteStorage.SqliteFaultStorage.ClearFault | src/ros2_medkit_fault_manager/src/sqlite_fault_storage.cpp:990-1018 | The status update and its change count agree with the in-memory clear. |
| SqliteStorage.SqliteFaultStorage.ReclassifyHealedAsCleared | src/ros2_medkit_fault_manager/src/sqlite_fault_storage.cpp:1020-1059 | Exactly the HEALED faults become CLEARED; their codes are returned up to a NUL. |
| SqliteStorage.SqliteFaultStorage.CheckTimeBasedConfirmation | src/ros2_medkit_fault_manager/src/sqlite_fault_storage.cpp:1082-1124 | Exactly the PREFAILED faults with a positive, old enough failure time become CONFIRMED; their codes are returned up to a NUL. |
| SqliteStorage.TrimKeepsNewest | src/ros2_medkit_fault_manager/src/sqlite_fault_storage.cpp:1336-1379 | The delete statement leaves exactly the newest rows of the code. |
| SqliteStorage.ReactivationAgreesExactly | src/ros2_medkit_fault_manager/src/sqlite_fault_storage.cpp:696-887 | The two backends leave the same record after a report exactly if it is a PASSED one, or every text of the record is free of NUL and, where a cleared fault starts over, the confirmation threshold is negative and the healing threshold at least minus one. |
| SqliteStorage.TimedConfirmationAgreesExactly | src/ros2_medkit_fault_manager/src/sqlite_fault_storage.cpp:1082-1124 | The two backends find the same faults due exactly if every due failure time is positive. |
| SqliteStorage.BackendsAgreeExactly | src/ros2_medkit_fault_manager/src/sqlite_fault_storage.cpp:696-1124 | From any one store an operation gives the same store and the same reply in both backends exactly if, for a FAILED report, the texts it leaves are free of NUL and a restart finds minus one in the band; for a timed confirmation, every due time is positive and every due code free of NUL; for a reclassification, every healed code is free of NUL. |
| StorageAgreement.RunBoth | src/ros2_medkit_fault_manager/src/sqlite_fault_storage.cpp:666-887 | Both backends from empty through any operations, with a configuration per report: each returns the replies, the fault and the near misses of its own specification, and for operations as the node issues them with texts free of NUL these are equal. |
| StorageAgreement.NodeRunsAgree | src/ros2_medkit_fault_manager/src/sqlite_fault_storage.cpp:666-1124 | Reports with usable thresholds, positive times and texts free of NUL, and all other operations, take both backends through the same stores with the same replies. |
| StorageAgreement.FirstReportAgreesIff | src/ros2_medkit_fault_manager/src/sqlite_fault_storage.cpp:850-887 | A first FAILED report leaves the same in both backends exactly if its source and its description are free of NUL. |
| StorageAgreement.NulSourceLost | src/ros2_medkit_fault_manager/src/sqlite_fault_storage.cpp:850-887 | A reported source with a NUL in it is kept in memory, and SQLite reads back no source at all. |
| StorageAgreement.NulTextCut | src/ros2_medkit_fault_manager/src/sqlite_fault_storage.cpp:850-887 | The description of such a report, and the source of its near miss, are read back up to the NUL. |
| AuditTrail.FaultManagerNode.HandleReportFault | src/ros2_medkit_fault_manager/src/fault_manager_node.cpp:772-927 | Rejected requests change nothing; an accepted one stores the report and appends occurred, confirmed and healed records by the status before and after. |
| AuditTrail.FaultManagerNode.HandleClearFault | src/ros2_medkit_fault_manager/src/fault_manager_node.cpp:998-1074 | Clears the code, then each correlated symptom with its record, then writes the record of the code; an unknown code changes nothing. |
| AuditTrail.FaultManagerNode.AutoConfirmTick | src/ros2_medkit_fault_manager/src/fault_manager_node.cpp:447-477 | Every fault the timer confirms gets one confirmed record. |
| AuditTrail.FaultManagerNode.ReclassifyAtStartup | src/ros2_medkit_fault_manager/src/fault_manager_node.cpp:269-288 | Every fault reclassified at startup gets one cleared record. |
| AuditTrail.FaultManagerNode.AuditTransition | src/ros2_medkit_fault_manager/src/fault_manager_node.cpp:642-688 | A record is appended unless the mode keeps confirmed records only and it is another kind. |
| RequestEffects.RejectedChangesNothing | src/ros2_medkit_fault_manager/src/fault_manager_node.cpp:772-815 | A request with an invalid code, no source, an event type other than 0 and 1, or for type 0 a severity outside 0 to 3 changes nothing. |
| RequestEffects.FailedRequestStores | src/ros2_medkit_fault_manager/src/fault_manager_node.cpp:816-830 | Every other request of event type 0 leaves its code stored and not cleared, with its source, its time, its description and at least its severity; on an unknown or cleared code it starts one more occurrence, up to saturation. |
| RequestEffects.FailedRequestRecords | src/ros2_medkit_fault_manager/src/fault_manager_node.cpp:880-900 | It writes one occurred record exactly on an unknown or cleared code and one confirmed record exactly if it confirms. |
| RequestEffects.PassedRequestMoves | src/ros2_medkit_fault_manager/src/fault_manager_node.cpp:816-900 | An accepted request of event type 1 changes nothing on an unknown or cleared code; on a tracked one it moves only the debounce state and the time of the last PASSED report. |
| RequestEffects.ReportLeavesOthers | src/ros2_medkit_fault_manager/src/fault_manager_node.cpp:772-927 | A report changes no record of another code, in the store or in the trail. |
| RequestEffects.ClearRequestClears | src/ros2_medkit_fault_manager/src/fault_manager_node.cpp:998-1074 | Clearing a known code leaves it and every known symptom CLEARED with the rest of their records as they were, touches no other fault, and writes one cleared record for the code and one per listed known symptom. |
| RequestEffects.UnknownClearChangesNothing | src/ros2_medkit_fault_manager/src/fault_manager_node.cpp:998-1020 | Clearing an invalid or unknown code changes nothing. |
| RequestEffects.TimerRequestConfirms | src/ros2_medkit_fault_manager/src/fault_manager_node.cpp:447-477 | The timer confirms exactly the PREFAILED faults whose last failure is old enough, with one record each. |
| RequestEffects.StartupRequestClears | src/ros2_medkit_fault_manager/src/fault_manager_node.cpp:269-288 | At startup exactly the HEALED faults become CLEARED, with one record each. |
| AuditTrail.HandledStaysConsistent | src/ros2_medkit_fault_manager/src/fault_manager_node.cpp:642-1074 | Every handler keeps the trail of every code in step with its stored status and count. |
| AuditTrail.TrailTellsStatus | src/ros2_medkit_fault_manager/src/fault_manager_node.cpp:642-1074 | In every run from an empty store with all transitions audited: the last state record is confirmed exactly when the status is CONFIRMED and healed exactly when it is HEALED, two confirmed records are separated by a healed or cleared one, and occurred records count the occurrences up to saturation. |
| AuditTrail.ConfirmedOnlyIsProjection | src/ros2_medkit_fault_manager/src/fault_manager_node.cpp:642-650 | The confirmed-only log of a run is the full log of the same run without its other records. |
| AuditedRuns.RetainedIsCommittedTail | src/ros2_medkit_fault_manager/src/fault_manager_node.cpp:642-688 | In every run of the node with its log, appends that fail and are passed over, rotations and restarts included: the file is intact, so verification accepts it, and its retained records tell the tail of exactly those transitions whose append committed. |
| AuditedRuns.RetainedRecordTellsStatus | src/ros2_medkit_fault_manager/src/fault_manager_node.cpp:642-688 | If no append failed, the newest retained state record of a code is a confirmed one exactly when the stored status is CONFIRMED and a healed one exactly when it is HEALED, however much history was pruned. |
| FaultCodes.ValidateFaultCode | src/ros2_medkit_fault_manager/src/fault_manager_node.cpp:62-86 | Accepts exactly the non-empty codes within the length limit made of the permitted characters and free of double dots. |
| FaultCodes.ValidFaultCodeExactly | src/ros2_medkit_fault_manager/src/fault_manager_node.cpp:62-86 | A valid code has 1 to 256 letters, digits, underscores, dashes and dots, and contains no two dots in a row. |
| FaultCodes.Snake | src/ros2_medkit_action_status_bridge/src/action_status_bridge_node.cpp:564-593 | The normalised name is upper-case snake text without leading, trailing or doubled separators, and empty exactly if the name has no letter or digit. |
| FaultCodes.SnakeLettersOfName | src/ros2_medkit_action_status_bridge/src/action_status_bridge_node.cpp:564-593 | Normalising loses no letter and no digit and reorders none. |
| FaultCodes.WordsStayApart | src/ros2_medkit_action_status_bridge/src/action_status_bridge_node.cpp:564-579 | Separators between two words of a name become one underscore, those around them go. |
| FaultCodes.ToUpperSnake | src/ros2_medkit_action_status_bridge/src/action_status_bridge_node.cpp:564-593 | The name is cut to its budget with a hash suffix and never ends in a separator. |
| FaultCodes.CodePrefix | src/ros2_medkit_action_status_bridge/src/action_status_bridge_node.cpp:141-145 | Every configured prefix becomes one the code generator can use. |
| FaultCodes.FaultCodeFor | src/ros2_medkit_action_status_bridge/src/action_status_bridge_node.cpp:595-617 | For every prefix and action the code is under 64 characters, the clamp never fires, it ends in the full status suffix and the fault manager accepts it. |
| FaultCodes.NameKeptWhole | src/ros2_medkit_action_status_bridge/src/action_status_bridge_node.cpp:595-617 | A name of up to 48 characters that fits 64 with its prefix and suffix is not cut. |
| FaultCodes.SuffixesDistinct | src/ros2_medkit_action_status_bridge/src/action_status_bridge_node.cpp:595-617 | The code of an aborted action is never the code of a canceled one, of the same action or another. |
| FaultCodes.SameCodeIff | src/ros2_medkit_action_status_bridge/src/action_status_bridge_node.cpp:595-617 | Two generated codes are the same exactly if their suffixes and their action parts are. |
| FaultCodes.SamePartIff | src/ros2_medkit_action_status_bridge/src/action_status_bridge_node.cpp:564-593 | Two action names give the same part exactly if they normalise alike, are cut to the same stem with the same sixteen bits of hash, or one spells out what the other is cut to. |
| FaultCodes.SpelledAlike | src/ros2_medkit_action_status_bridge/src/action_status_bridge_node.cpp:564-593 | Neither the case of a letter nor the choice of a separator makes a difference to the normal form of a name. |
| ActionBridge.DeriveState | src/ros2_medkit_action_status_bridge/src/action_status_bridge_node.cpp:277-294 | Failed if any goal fails, else healthy if any goal is terminal, else unknown, whatever the order. |
| ActionBridge.DescribeFailureIsCancel | src/ros2_medkit_action_status_bridge/src/action_status_bridge_node.cpp:61-73 | True exactly if some goal is canceled, cancellation is a fault and no goal is aborted. |
| ActionBridge.VerdictByMembers | src/ros2_medkit_action_status_bridge/src/action_status_bridge_node.cpp:277-294 | Failed exactly if an aborted goal, or a canceled one that counts as a fault, is in the list; healthy exactly if otherwise a succeeded or canceled one is; only canceled exactly if failed without an aborted one. |
| ActionBridge.PrunedOk | src/ros2_medkit_action_status_bridge/src/action_status_bridge_node.cpp:225-275 | Forgetting an action leaves an active fault behind exactly when it was last reported failed and healing is disabled or the service is not ready. |
| ActionBridge.RunsAlternate | src/ros2_medkit_action_status_bridge/src/action_status_bridge_node.cpp:225-437 | In every run, between two forgettings, the deliveries of an action alternate raise and heal starting with a raise, every heal covers the code last raised, and the retry timer is armed exactly when something is pending. |
| ActionBridge.ReadyPassDrains | src/ros2_medkit_action_status_bridge/src/action_status_bridge_node.cpp:383-407 | One pass with the service ready leaves nothing pending and the timer disarmed. |
| ActionDeliveries.StateIsTold | src/ros2_medkit_action_status_bridge/src/action_status_bridge_node.cpp:225-381 | The desired and the reported state of an action are what the steps alone call for and delivered since it was last forgotten. |
| ActionDeliveries.OwnCallsLeave | src/ros2_medkit_action_status_bridge/src/action_status_bridge_node.cpp:225-381 | Once nothing is pending for an action, the calls made for it leave one of its codes active exactly when the messages call for a fault, or an earlier forgetting found it reported failed with healing disabled or the service not ready and no heal was delivered since. |
| ActionDeliveries.NeverStranded | src/ros2_medkit_action_status_bridge/src/action_status_bridge_node.cpp:225-275 | With healing on and the service ready at every forgetting of the action nothing is left behind. |
| ActionCalls.HeldExactly | src/ros2_medkit_action_status_bridge/src/action_status_bridge_node.cpp:225-381 | With all calls in one order, and no other action of the run sharing a code: once nothing is pending for an action, the fault manager holds an active fault of it exactly when the messages call for one, or an earlier forgetting found it reported failed with healing disabled or the service not ready and no heal was delivered since. |
| ActionCalls.AlwaysHeldIff | src/ros2_medkit_action_status_bridge/src/action_status_bridge_node.cpp:225-381 | Over a given set of actions this holds for one of them in every run exactly if none of the others shares a code with it. |
| ActionCalls.SharedCodeHidesFault | src/ros2_medkit_action_status_bridge/src/action_status_bridge_node.cpp:324-381 | Two actions with one code fail and the second succeeds: nothing is pending for the first, its messages call for a fault, and the fault manager holds none. |
| ActionCalls.GeneratedShareIff | src/ros2_medkit_action_status_bridge/src/action_status_bridge_node.cpp:564-617 | With the codes the bridge generates, two actions share one exactly if their names normalise alike, are cut to the same stem with the same sixteen bits of hash, or one spells out what the other is cut to. |
| ActionCalls.SpellingHidesFault | src/ros2_medkit_action_status_bridge/src/action_status_bridge_node.cpp:564-617 | Two action names that differ only in a separator or in case are such a pair, under every prefix and hash. |
| ActionCalls.LogExists | src/ros2_medkit_action_status_bridge/src/action_status_bridge_node.cpp:225-466 | Every run has an ordered log of its calls. |
| ActionCalls.ForgottenFaultStaysActive | src/ros2_medkit_action_status_bridge/src/action_status_bridge_node.cpp:267-346 | A run in which an action vanishes while the service is away, comes back and succeeds: nothing is pending, the messages call for no fault, and the fault manager still holds it. |
| ActionBridgeNode.ActionStatusBridge.Reconcile | src/ros2_medkit_action_status_bridge/src/action_status_bridge_node.cpp:324-381 | One reconcile delivers at most one transition and touches only its own action. |
| ActionBridgeNode.ActionStatusBridge.UpdateRetryTimer | src/ros2_medkit_action_status_bridge/src/action_status_bridge_node.cpp:409-437 | The timer ends armed exactly if some action is pending. |
| ActionBridgeNode.ActionStatusBridge.StatusCallback | src/ros2_medkit_action_status_bridge/src/action_status_bridge_node.cpp:439-466 | The callback on the real maps is the status step on values, and appends its calls to the ordered log. |
| ActionBridgeNode.ActionStatusBridge.ReconcilePending | src/ros2_medkit_action_status_bridge/src/action_status_bridge_node.cpp:383-407 | The collected pass, in any iteration order, reconciles every pending action once and no other. |
| ActionBridgeNode.ActionStatusBridge.PruneVanished | src/ros2_medkit_action_status_bridge/src/action_status_bridge_node.cpp:225-275 | Exactly the vanished actions are healed where possible and forgotten. |
| ActionBridgeNode.ActionStatusBridge.RescanActions | src/ros2_medkit_action_status_bridge/src/action_status_bridge_node.cpp:173-223 | A rescan is the prune followed by a pass over what is pending. |
| CapturePool.CaptureThreadPool.constructor | src/ros2_medkit_fault_manager/src/capture_thread_pool.cpp:24-41 | A depth of zero becomes one. |
| CapturePool.CaptureThreadPool.EnqueueJob | src/ros2_medkit_fault_manager/src/capture_thread_pool.cpp:47-69 | Accepts, rejects or evicts the front job by fill level and policy, and nothing after stop. |
| CapturePool.CaptureThreadPool.TakeJob | src/ros2_medkit_fault_manager/src/capture_thread_pool.cpp:104-128 | A worker takes the front job, and none after stop. |
| CapturePool.CaptureThreadPool.ShutdownPool | src/ros2_medkit_fault_manager/src/capture_thread_pool.cpp:71-80 | Stopping discards what is pending in the same step. |
| CapturePool.RunsConserve | src/ros2_medkit_fault_manager/src/capture_thread_pool.cpp:47-128 | In every interleaving the jobs that left, in the order they left, followed by the pending ones are the accepted jobs in acceptance order; the queue never exceeds its depth. |
| CapturePool.AcceptedAccountedFor | src/ros2_medkit_fault_manager/src/capture_thread_pool.cpp:47-128 | Accepted equals pending plus taken plus evicted plus discarded, dropped equals evictions plus full-queue rejections, and the i-th job to leave is the i-th accepted. |
| CapturePool.StoppedForGood | src/ros2_medkit_fault_manager/src/capture_thread_pool.cpp:71-120 | A stopped pool never changes again. |
| CapturePool.ShutdownDiscards | src/ros2_medkit_fault_manager/src/capture_thread_pool.cpp:71-80 | A shutdown leaves a stopped, empty pool with every pending job discarded. |
| CapturePool.StoppedIffShutDown | src/ros2_medkit_fault_manager/src/capture_thread_pool.cpp:47-80 | A pool is stopped exactly if it was shut down, and exactly then it refuses jobs as shutting down. |
| CapturePool.QueueFillsToDepth | src/ros2_medkit_fault_manager/src/capture_thread_pool.cpp:47-69 | Without takes the queue fills to its depth before anything is turned away; beyond it the newest jobs are pending under one policy and the first under the other, and every job in excess is counted. |
| CapturePool.TakeTakesOldest | src/ros2_medkit_fault_manager/src/capture_thread_pool.cpp:104-128 | A worker that finds a running, non-empty pool takes the oldest pending job and leaves the others in order. |
| CaptureCooldown.CaptureTrigger.SweepExpired | src/ros2_medkit_fault_manager/src/fault_manager_node.cpp:706-724 | The sweep drops exactly the entries whose cooldown is over. |
| CaptureCooldown.CaptureTrigger.CaptureOnConfirm | src/ros2_medkit_fault_manager/src/fault_manager_node.cpp:690-770 | Cooldown check, enqueue and entry update are the two confirmation steps on values, for every outcome of the enqueue. |
| CaptureCooldown.CaptureTrigger.ForgetCleared | src/ros2_medkit_fault_manager/src/fault_manager_node.cpp:1023-1030 | A clear drops the entries of the code and its symptoms. |
| CaptureCooldown.RunsKeepCooldowns | src/ros2_medkit_fault_manager/src/fault_manager_node.cpp:690-770 | In every interleaving a code in the cooldown map has had no job evicted and no clear since its entry was written, and two captures of a code with neither in between are at least the cooldown apart unless the earlier one evicted an older job of its own code. |
| CooldownSpacing.SelfEvictionBreaksSpacing | src/ros2_medkit_fault_manager/src/fault_manager_node.cpp:736-750 | For every depth with eviction of the oldest job, a run in which a capture evicts an older job of its own code and the next capture of the code follows within the cooldown. |
| CooldownSpacing.AlwaysSpacedIff | src/ros2_medkit_fault_manager/src/fault_manager_node.cpp:690-770 | Two captures of a code with no clear and no eviction in between are a cooldown apart in every run exactly if the cooldown is off or a full queue rejects. |
| CooldownSpacing.HeldBackExactly | src/ros2_medkit_fault_manager/src/fault_manager_node.cpp:690-735 | In every run a confirmation is held back exactly if the cooldown is on and an earlier capture of the code, undisturbed since and not erased by its own eviction, is less than a cooldown old; every other one reaches the queue. |
| CooldownSpacing.RecordEndsConfirmation | src/ros2_medkit_fault_manager/src/fault_manager_node.cpp:736-770 | Recording the outcome ends the confirmation; the code has an entry from then on exactly if the cooldown is on and its job was accepted, unless it evicted a job of its own code. |
| CooldownSpacing.ClearForgets | src/ros2_medkit_fault_manager/src/fault_manager_node.cpp:1023-1030 | A clear forgets exactly the entries of the codes it names. |
| DomainBand.SafeMeansNoPortShared | src/ros2_medkit_cmake/scripts/medkit_domain.py:318-329 | A domain is safe exactly if none of its 250 ports is past 65535 or in the ephemeral range. |
| DomainBand.SlicesDisjoint | src/ros2_medkit_cmake/scripts/medkit_domain.py:318-321 | No port belongs to two domains. |
| DomainBand.UsableIsSafeByDefault | src/ros2_medkit_cmake/scripts/medkit_domain.py:137-141 | From domain 1 on the usable ones are exactly those safe under the default port range. |
| DomainBand.ParsesExactly | src/ros2_medkit_cmake/scripts/medkit_domain.py:255-269 | A text is accepted as a range exactly if, with dashes read as blanks, it is two words with blanks between and around them whose integer values are the two ends, and the range is well formed. |
| DomainBand.PrintedRangeParses | src/ros2_medkit_cmake/scripts/medkit_domain.py:255-269 | Every well-formed range is read back from its two decimal numbers, whatever blanks or dashes separate and surround them. |
| DomainBand.AnsweredExactly | src/ros2_medkit_cmake/scripts/medkit_domain.py:272-315 | The range is unknown exactly if neither the declaration nor the kernel answers, never a default, and refused exactly if some answer is not a range. |
| DomainBand.RangeIsSmallest | src/ros2_medkit_cmake/scripts/medkit_domain.py:310-315 | A known range is the smallest one around every answer. |
| DomainBand.AcceptedIffAllSafe | src/ros2_medkit_cmake/scripts/medkit_domain.py:350-383 | A band is accepted exactly if the range is known and every domain of it is safe. |
| DomainBand.SuggestionIsAccepted | src/ros2_medkit_cmake/scripts/medkit_domain.py:350-414 | The text a refusal suggests parses to exactly the safe domains of the band in order, and that band is accepted on the same machine. |
| DomainBand.NoSuggestionMeansNoneSafe | src/ros2_medkit_cmake/scripts/medkit_domain.py:350-383 | No suggestion is made exactly if no domain of the band is safe. |
| DomainBand.WideningKeepsUnsafe | src/ros2_medkit_cmake/scripts/medkit_domain.py:324-329 | Widening the port range never makes an unsafe domain safe. |
| DomainBand.DeclarationOnlyTightens | src/ros2_medkit_cmake/scripts/medkit_domain.py:272-315 | A declared range on top of the kernel one can only make the check stricter. |
| BandText.FormatBand | src/ros2_medkit_cmake/scripts/medkit_domain.py:337-347 | The loop that extends the last run prints the maximal runs of the sorted distinct domains. |
| BandText.ParseBand | src/ros2_medkit_cmake/scripts/medkit_domain.py:386-414 | The first bad part decides the error; otherwise emptiness and domains outside the band are refused in that order. |
| BandText.BandRoundTrip | src/ros2_medkit_cmake/scripts/medkit_domain.py:337-414 | Parsing the text of a non-empty set of usable domains gives back its distinct domains in order. |
| BandText.ParsedBandIsUsable | src/ros2_medkit_cmake/scripts/medkit_domain.py:386-414 | An accepted band is non-empty, usable and names each domain once. |
| BandText.ExpandSpans | src/ros2_medkit_cmake/scripts/medkit_domain.py:337-347 | The runs list exactly the given domains. |
| PythonNumbers.DigitTextIsGroups | src/ros2_medkit_cmake/scripts/medkit_domain.py:386-414 | A text is digits as Python reads them exactly if every part between underscores is a run of digits. |
| PythonNumbers.IntExactly | src/ros2_medkit_cmake/scripts/medkit_domain.py:386-414 | With blanks around it and an optional sign, a text is a number exactly if its parts between underscores are runs of digits, and its value is theirs, negated after a minus. |
| PythonNumbers.BlankCodes | src/ros2_medkit_cmake/scripts/medkit_domain.py:386-414 | The blanks that are stripped, by their codes. |
| DomainLocks.BandSelector.Select | src/ros2_medkit_cmake/scripts/medkit_domain.py:425-446 | The selector walks the band cyclically. |
| DomainLocks.DomainId | src/ros2_medkit_cmake/scripts/medkit_domain.py:44-46 | The first free one of the next hundred candidates is taken, or none if all hundred are bound. |
| DomainLocks.Release | src/ros2_medkit_cmake/scripts/medkit_domain.py:489-497 | Every held port is closed. |
| DomainLocks.TryTake | src/ros2_medkit_cmake/scripts/medkit_domain.py:500-547 | Either the whole set is taken or the bound ports are as before. |
| DomainLocks.AttemptIsFresh | src/ros2_medkit_cmake/scripts/medkit_domain.py:500-547 | What an attempt takes is the requested number of distinct band domains that were free. |
| DomainLocks.AloneSucceedsIff | src/ros2_medkit_cmake/scripts/medkit_domain.py:500-547 | An attempt made while nobody holds anything succeeds exactly if the band is large enough. |
| DomainLocks.EnoughFreeSucceeds | src/ros2_medkit_cmake/scripts/medkit_domain.py:500-547 | On a band of at most a hundred domains an attempt succeeds exactly if at least the requested number of its domains is free, whatever others hold and wherever it starts. |
| DomainLocks.EnoughFreeSucceedsIff | src/ros2_medkit_cmake/scripts/medkit_domain.py:500-547 | That free domains are enough in every situation holds exactly for the bands of at most a hundred domains. |
| DomainLocks.LongBandGivesUpEarly | src/ros2_medkit_cmake/scripts/medkit_domain.py:44-46 | On a longer band a hundred bound candidates in a row end the attempt with all the others free. |
| DomainLocks.DefaultBandGivesUpEarly | src/ros2_medkit_cmake/scripts/medkit_domain.py:137-141 | The default band of 117 is such a band: an attempt can end with seventeen of its domains free. |
| DomainProcesses.RunsExclusive | src/ros2_medkit_cmake/scripts/medkit_domain.py:500-606 | In every interleaving, kills included, in the kernel's own table of ports: a process owns exactly the domains it lists, all of its band; a running one owns exactly its count; one that waits, failed, finished or was killed owns none. |
| DomainProcesses.RunsKeepTable | src/ros2_medkit_cmake/scripts/medkit_domain.py:500-606 | Every run keeps the table of ports, written only by binds, closes, kills and strangers, in step with every process. |
| DomainProcesses.HoldersNeverWait | src/ros2_medkit_cmake/scripts/medkit_domain.py:500-547 | A process that holds domains without running always has a possible next move, which brings it strictly closer to running or to holding nothing. |
| DomainProcesses.OthersLeaveAlone | src/ros2_medkit_cmake/scripts/medkit_domain.py:550-606 | No step of another process changes a process, so its remaining moves are its own. |
| DomainProcesses.HoldersSettle | src/ros2_medkit_cmake/scripts/medkit_domain.py:500-606 | From any state of any run, whatever the others do in between, a process that has made as many moves as it had left has been running or without any port. |
| DomainProcesses.RunningIsFinal | src/ros2_medkit_cmake/scripts/medkit_domain.py:551-606 | A process that got to run never starts over: it runs, gives its domains back, is done, or was killed. |
| DomainProcesses.DoneMeansRan | src/ros2_medkit_cmake/scripts/medkit_domain.py:551-606 | A process that is done has been running; one that sleeps, tries, gave up or failed has not. |
| DomainProcesses.StoppedGetsDone | src/ros2_medkit_cmake/scripts/medkit_domain.py:551-606 | A running process that stops gets to be done by closing what it holds. |
| DomainProcesses.ForeignSteps | src/ros2_medkit_cmake/scripts/medkit_domain.py:500-547 | A foreign bind leaves the port bound; a foreign close leaves it bound exactly if a process owns it. |
| DomainProcesses.ParsedBandIsAskable | src/ros2_medkit_cmake/scripts/medkit_domain.py:386-414 | Every band the parser accepts, with a positive count, is one a process may ask for. |
| DomainProcesses.BindsAreLocal | src/ros2_medkit_cmake/scripts/medkit_domain.py:500-547 | Undisturbed binds of a process in the system are its binds against fixed foreign ports. |
| DomainProcesses.AloneGetsToRun | src/ros2_medkit_cmake/scripts/medkit_domain.py:500-606 | A process asking for no more than its band gets to run with an attempt made while nobody holds anything. |
| SnapshotRetention.InMemorySnapshots.StoreSnapshots | src/ros2_medkit_fault_manager/src/fault_storage.cpp:391-452 | The find-oldest-and-erase loop ends and leaves the retained captures. |
| SnapshotRetention.SqliteSnapshots.StoreSnapshots | src/ros2_medkit_fault_manager/src/sqlite_fault_storage.cpp:1145-1220 | The trim-until-nothing-changes loop ends and leaves the retained captures. |
| SnapshotRetention.EvictInMemory | src/ros2_medkit_fault_manager/src/fault_storage.cpp:403-449 | The result is a cutoff that keeps the newest capture, fits the cap unless that one alone is over it, and drops nothing that would fit. |
| SnapshotRetention.TrimInSql | src/ros2_medkit_fault_manager/src/sqlite_fault_storage.cpp:1176-1213 | The repeated delete statement reaches such a cutoff too. |
| SnapshotRetention.BackendsRetainTheSame | src/ros2_medkit_fault_manager/src/sqlite_fault_storage.cpp:1145-1220 | What may be retained is determined, so both backends keep the same rows in the same order. |
| SnapshotRetention.RetainsWholeNewest | src/ros2_medkit_fault_manager/src/fault_storage.cpp:391-452 | Other faults are untouched, captures stay or go as a whole, a capture newer than a surviving one survives, and the newest always does. |
| SnapshotRetention.ClearAgreesIff | src/ros2_medkit_fault_manager/src/sqlite_fault_storage.cpp:990-1018 | Clearing leaves both backends with the same snapshots exactly if clears keep them, the fault is known, or it has none. |
| RosbagTrim.TrimOldest | src/ros2_medkit_fault_manager/src/fault_storage.cpp:598-627 | Sorting positions by age and erasing the old end from the highest position down leaves exactly the rows with fewer than n newer ones, the rows the SQL statement keeps. |
| RosbagTrim.KeepsUpToCap | src/ros2_medkit_fault_manager/src/sqlite_fault_storage.cpp:1507-1545 | A trimmed fault keeps its cap of rows, or all it had. |
| RosbagTrim.EvictsOldest | src/ros2_medkit_fault_manager/src/fault_storage.cpp:598-627 | Every row that goes is older, by creation time and then insertion number, than every row of the fault that stays. |
| RosbagRows.BatchAccountsForPaths | src/ros2_medkit_fault_manager/src/fault_storage.cpp:564-627 | A batch loses track of no path: what was or became named is still named or among the evicted paths. |
| RosbagRows.StepKeepsBags | src/ros2_medkit_fault_manager/src/fault_storage.cpp:564-766 | Every operation keeps each row naming a bag on disk; a bag that loses its last row in an operation is removed by it, and no other bag is; no bag is added and none named but those given. |
| RosbagRows.DeleteFaultTakes | src/ros2_medkit_fault_manager/src/fault_storage.cpp:702-730 | Deleting the recordings of a fault takes exactly its rows; a bag stays exactly if a row of another fault names it, or none did. |
| RosbagRows.DeleteRecordingTakes | src/ros2_medkit_fault_manager/src/fault_storage.cpp:732-760 | Deleting a recording takes exactly the rows with its id; a bag stays exactly if a row with another id names it, or none did; an empty id takes nothing. |
| RosbagRows.UpsertRefreshesOrAppends | src/ros2_medkit_fault_manager/src/fault_storage.cpp:587-596 | A link stored again is refreshed in its place with its number; a new one is appended with the next number. |
| RosbagRows.RecordingIdIsName | src/ros2_medkit_fault_manager/src/fault_storage.cpp:24-30 | The id of a recording is the name of its directory, trailing slashes aside. |
| RosbagRows.RunsKeepBags | src/ros2_medkit_fault_manager/src/fault_storage.cpp:564-766 | Across every sequence of batch stores, trims and deletes every row names a bag on disk, links are unique and insertion numbers are not reused. |
| RosbagRows.TouchedFaultsWithinCap | src/ros2_medkit_fault_manager/src/fault_storage.cpp:598-627 | After a batch every fault it touched is within the cap, however the batch mixes faults. |
| BurstStore.StoreLeavesOthers | src/ros2_medkit_fault_manager/src/fault_storage.cpp:564-627 | Storing a row of one fault changes no row of another. |
| BurstStore.BurstRows | src/ros2_medkit_fault_manager/src/fault_storage.cpp:564-627 | After a new recording is stored for several faults, exactly those have their row for which fewer than the cap of stored rows have a later creation time. |
| RosbagStorage.InMemoryRosbags.StoreRosbagFiles | src/ros2_medkit_fault_manager/src/fault_storage.cpp:564-644 | The batch on the copied vector, swapped in before any bag is unlinked, is the batch on values. |
| RosbagStorage.InMemoryRosbags.DeleteRosbagFile | src/ros2_medkit_fault_manager/src/fault_storage.cpp:702-730 | All rows of the fault go, then the bags only they named; the result says whether there were any. |
| RosbagStorage.InMemoryRosbags.DeleteRosbagRecording | src/ros2_medkit_fault_manager/src/fault_storage.cpp:732-760 | All rows of the recording go and are counted; an empty id deletes nothing. |
| QuotaEviction.TotalRosbagStorageBytes | src/ros2_medkit_fault_manager/src/fault_storage.cpp:768-787 | The total counts each bag once, with its largest row, in whatever order the map iterates. |
| QuotaEviction.BagsOldestFirst | src/ros2_medkit_fault_manager/src/rosbag_capture.cpp:1348-1372 | Bags are listed oldest first: the oldest row of a bag is older than every row of a later bag. |
| QuotaEviction.EvictBagsOverQuota | src/ros2_medkit_fault_manager/src/rosbag_capture.cpp:1348-1393 | The loop evicts a prefix of the bags and stops at the first point where the running total fits; the saturating subtraction never saturates. |
| QuotaEviction.WholeBagsGo | src/ros2_medkit_fault_manager/src/rosbag_capture.cpp:1374-1393 | An evicted bag has no row left, whichever faults shared it. |
| QuotaEviction.EvictedBagsLeaveDisk | src/ros2_medkit_fault_manager/src/rosbag_capture.cpp:1374-1393 | An evicted bag is gone from disk, every remaining row still has its bag, and only bags that lost all their rows are removed. |
| QuotaEviction.RealAtMostRunning | src/ros2_medkit_fault_manager/src/rosbag_capture.cpp:1374-1393 | If ids are a non-empty function of the path, the running total is never below what the bags really take. |
| QuotaEviction.QuotaIsMet | src/ros2_medkit_fault_manager/src/rosbag_capture.cpp:1348-1393 | Under the same condition the bags fit the limit when the loop ends. |
| QuotaEviction.ShortestSufficientPrefix | src/ros2_medkit_fault_manager/src/rosbag_capture.cpp:1348-1393 | With distinct ids per path exactly the shortest sufficient prefix of bags is removed. |
| QuotaEviction.EmptyIdsStay | src/ros2_medkit_fault_manager/src/fault_storage.cpp:732-736 | A store whose rows all lack a recording id is left as it is by every eviction. |
| QuotaEviction.RunsNameByPath | src/ros2_medkit_fault_manager/src/fault_storage.cpp:580-585 | In every run whose bag paths have a last component the stored ids are a non-empty function of the path. |
| QuotaExactness.TotalAfterExactly | src/ros2_medkit_fault_manager/src/rosbag_capture.cpp:1348-1393 | With ids that are any function of the path, empty or shared: the bags left after k evictions take the running total plus the sizes of the first k bags without an id, less the later bags that share the id of a passed one. |
| QuotaExactness.TotalBounded | src/ros2_medkit_fault_manager/src/rosbag_capture.cpp:1348-1393 | Whatever the ids, the bags left never take more than the running total and the passed bags without an id. |
| QuotaExactness.QuotaMetIff | src/ros2_medkit_fault_manager/src/rosbag_capture.cpp:1348-1393 | Where the loop stops the quota is met exactly if that amount is within the limit; with every id present it always is, and with ids that name one path no bag goes early. |
| QuotaExactness.OverLimitStays | src/ros2_medkit_fault_manager/src/fault_storage.cpp:732-736 | A reachable store of one bag without an id larger than the limit stays over it. |
| RecordingWindow.RosbagCapture.AttachToActiveRecording | src/ros2_medkit_fault_manager/src/rosbag_capture.cpp:389-417 | Inside the window a fault joins, is the primary already, or past the cap only widens the filter; outside nothing changes. |
| RecordingWindow.RosbagCapture.WidenCaptureFilterFor | src/ros2_medkit_fault_manager/src/rosbag_capture.cpp:419-445 | The filter becomes the union, or everything when the topics are unknown. |
| RecordingWindow.RosbagCapture.BeginConfirmation | src/ros2_medkit_fault_manager/src/rosbag_capture.cpp:447-475 | A confirmation either joins the window or installs its own filter and goes on to open a bag. |
| RecordingWindow.RosbagCapture.PublishRecording | src/ros2_medkit_fault_manager/src/rosbag_capture.cpp:518-532 | Primary, bag path, attached set and guard change together. |
| RecordingWindow.RosbagCapture.TakeRecording | src/ros2_medkit_fault_manager/src/rosbag_capture.cpp:1506-1575 | Guard, state, writer and filter leave the window in one step. |
| RecordingWindow.RosbagCapture.BuildRows | src/ros2_medkit_fault_manager/src/rosbag_capture.cpp:1606-1645 | One row for exactly each fault of the recording that still wants one. |
| RecordingWindow.RosbagCapture.DropCleared | src/ros2_medkit_fault_manager/src/rosbag_capture.cpp:590-619 | A cleared fault leaves the window unless its history is kept. |
| RecordingWindow.StepKeeps | src/ros2_medkit_fault_manager/src/rosbag_capture.cpp:389-588 | Every step of confirmation, finalise, clear and eviction keeps writers with their own bags, bags apart, disk free of orphans and the filter wide enough. |
| RecordingWindow.RunsKeepRecordings | src/ros2_medkit_fault_manager/src/rosbag_capture.cpp:389-588 | In every interleaving a set guard means the active writer is the one of the current bag, a finalise holds only its own writer, what is on disk is exactly what is open, waiting or named by a row, and the filter is exactly the topics of the faults that joined, or empty once those of one are not known. |
| RecordingWindow.FinalizedBagHasItsRows | src/ros2_medkit_fault_manager/src/rosbag_capture.cpp:1606-1658 | A finalised bag has one row for exactly each fault that is owed one and has fewer than the cap of stored rows created later, and is gone if that leaves none. |
| RecordingWindow.ClosedBagHasItsRowsIff | src/ros2_medkit_fault_manager/src/rosbag_capture.cpp:533-588 | Without a post-roll the row is stored unasked: the bag has the rows it owes exactly if the store fails, or the fault wants a row exactly when its row is among the newest kept. |
| RecordingWindow.ClearedFaultKeepsRow | src/ros2_medkit_fault_manager/src/rosbag_capture.cpp:533-588 | A run without post-roll in which a fault cleared while its bag was closing keeps a row. |
| RecordingWindow.ConfirmJoins | src/ros2_medkit_fault_manager/src/rosbag_capture.cpp:389-417 | A confirmation inside the window ends up with the recording exactly if it was with it or the cap on attached faults allows. |
| RecordingWindow.ConfirmWidens | src/ros2_medkit_fault_manager/src/rosbag_capture.cpp:389-445 | In entity mode the topics of a confirmed fault are recorded from then on, even past the cap; without known topics everything is. |
| RecordingWindow.JoinedStays | src/ros2_medkit_fault_manager/src/rosbag_capture.cpp:590-625 | A fault that joined stays with its recording through every step but its own clear and the store. |
| RecordingWindow.JoinedGetsRow | src/ros2_medkit_fault_manager/src/rosbag_capture.cpp:1606-1658 | Storing a recording gives a fault with it a row exactly if it still wants one and fewer than the cap of its stored rows were created later. |
| RecordingRuns.JoinedFaultGetsRow | src/ros2_medkit_fault_manager/src/rosbag_capture.cpp:389-625 | In every run a fault with a recording, not cleared under clean-up until the recording is stored, has its row then exactly if fewer than the cap of its stored rows were created later by the wall clock. |
| RecordingRuns.ConfirmedFaultGetsRow | src/ros2_medkit_fault_manager/src/rosbag_capture.cpp:389-475 | In particular a fault confirmed inside the window, up to the cap on attached faults. |
| RecordingRuns.CarriedWasConfirmed | src/ros2_medkit_fault_manager/src/rosbag_capture.cpp:389-588 | In every run no writer, window or row carries a fault that was not confirmed earlier. |
| RecordingRuns.StoredRowsExactly | src/ros2_medkit_fault_manager/src/rosbag_capture.cpp:1606-1658 | In every run a stored bag has a row for exactly the faults with its recording that still want one and have fewer than the cap of stored rows created later, all confirmed earlier in the run. |
| RecordingRuns.ForwardClockKeepsRows | src/ros2_medkit_fault_manager/src/rosbag_capture.cpp:1606-1658 | If no stored recording was closed later by the wall clock, a new one is kept for every fault it owes a row, whatever the cap: the new replaces the old. |
| RecordingRuns.ClockStepLosesRecording | src/ros2_medkit_fault_manager/src/fault_storage.cpp:598-643 | With the default cap of one, after the clock went back, a run in which a recording is removed by the very store that should have put it in place of the older one. |
| RecordingRuns.ClockStepSplitsBurst | src/ros2_medkit_fault_manager/src/fault_storage.cpp:598-643 | Likewise a run in which a burst keeps its bag for one fault and loses it for another that is owed a row. |
| RecordingRuns.HandedOverWindowIsBare | src/ros2_medkit_fault_manager/src/rosbag_capture.cpp:1506-1575 | A recording that leaves the window takes its filter, writer and faults with it. |
| RecordingRuns.FailedOpenLeavesNothing | src/ros2_medkit_fault_manager/src/rosbag_capture.cpp:489-532 | A bag that cannot be opened leaves nothing behind, and the next confirmation may come. |
| RecordingClears.ClearedFaultGetsNoRow | src/ros2_medkit_fault_manager/src/rosbag_capture.cpp:1606-1650 | In every run with clean-up and a cap of one: a fault cleared before its recording is stored, and not reactivated, gets no row. |
| RecordingClears.AllClearedDiscardsBag | src/ros2_medkit_fault_manager/src/rosbag_capture.cpp:1640-1652 | If that holds for every fault of the recording, its bag is gone from disk. |
| RecordingClears.HistoryOutlivesClears | src/ros2_medkit_fault_manager/src/rosbag_capture.cpp:590-619 | Without clean-up, or with another cap, a fault with a recording has its row after the store exactly if fewer than the cap of its rows were created later, however often it was cleared. |
| RecordingClears.ClearTakesRows | src/ros2_medkit_fault_manager/src/rosbag_capture.cpp:590-625 | A clear takes every row of its code and none of another with clean-up and a cap of one, and none at all otherwise. |
| RecordingClears.EvictTakesRows | src/ros2_medkit_fault_manager/src/rosbag_capture.cpp:1374-1393 | An eviction takes exactly the rows of its recording, in every fault. |
| RecordingClears.ClearedExactly | src/ros2_medkit_fault_manager/src/rosbag_capture.cpp:1618-1631 | In every run a code counts as cleared exactly if its last clear was not followed by a reactivation. |
| RecordingClears.ClearedHasNoRecording | src/ros2_medkit_fault_manager/src/rosbag_capture.cpp:590-625 | In every run with a post-roll, clean-up and a cap of one, a fault has no recording from its clear until it is reactivated. |
| RecordingClears.ClearedInWindowIsOut | src/ros2_medkit_fault_manager/src/rosbag_capture.cpp:605-619 | A fault cleared inside the window is out of its recording, even if it is reactivated, unless it is confirmed again. |

## Left out

- Integer widths: the audit sequence number, counters and sizes are unbounded, except that severity is cut to a byte and the occurrence count saturates at 2^32 - 1.
- SQLite itself: schema, migrations, triggers, busy handling and I/O errors of the fault tables; a failed audit append or recording store is modelled.
- Audit lifecycle markers are records that tell of no transition; the fail-closed rethrow, off by default, which ends a handler at its first failed append, is left out.
- The UTF-8 decoder: which bytes are malformed is an input, not computed.
- AuditTrail.FaultManagerNode.HandleReportFault: events published to subscribers, correlation muting and the prefailed start of a recording are not modelled.
- AuditTrail.TrailTellsStatus: is about the transitions handed to the log; AuditedRuns.RetainedIsCommittedTail says which of them the file keeps when appends fail.
- StorageAgreement.RunBoth: leaves out the confirmation instant, which only SQLite stores.
- The correlation engine: its lists of symptoms are arbitrary inputs.
- YAML loading of threshold overrides and of correlation rules.
- RecordingWindow.StepKeeps: the quota sweep after a store is a step of its own, which may come at any time.
- RecordingWindow.RunsKeepRecordings: assumes that a new bag gets a path never used before, and does not say which bag a message racing the hand-over ends in.
- RecordingWindow.FinalizedBagHasItsRows: asking the store and storing are one step, and so is a clear, although each takes several locks: both run on the single-threaded executor, which does not interleave them. A store without post-roll, made by a worker inside a clear, has the effect of coming before or after it.
- Recorded durations and bag names: clock arithmetic and a digest, not part of the window protocol.
- RosbagRows.StepKeepsBags: removal of a directory is taken to succeed, and one operation runs at a time, as the storage lock ensures.
- The SQLite recording rows as a class: its delete statement is the specification the in-memory trim is proved against.
- CapturePool.CaptureThreadPool.TakeJob: waiting on the condition variable and joining threads are not modelled.
- ActionBridge.RunsAlternate: delivery is the call to a ready service; what the fault manager does with it, the reporter's local filter and entity attribution are not modelled.
- ActionCalls.HeldExactly: a raised code counts as held until a call heals it; debouncing and clears at the fault manager are not part of it.
- BandText.ParseBand: Python's integer syntax is ASCII digits, sign, blanks and underscores; other Unicode digits and the interpreter's digit limit are left out.
- DomainProcesses.RunsExclusive: sockets that cannot be created and the diagnosis of refused binds are left out; progress of sleeping processes under contention is not claimed.
- The gateway, the other bridges, snapshot capture and the launch files: they would only add easy members.
