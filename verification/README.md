# Codex usage dashboard: verified model

The dashboard service collects quota reports and live activity from several users of one machine, works
out what happened to each account's weekly window, and publishes a status page. This project models its
stateful cores in Dafny and proves what they guarantee over whole runs.

- **Reset history** (`History*.dfy`, `KeyOrder.dfy`). A per-account state machine turns noisy quota
  reports into one anchored window, completed events and adjustments, and commits them to two files, the
  sidecar first. `HistoryModel` has the rules of one account, `HistoryCommit` the whole tracker and its two
  files as values, `HistoryTracker` the object whose loops and field updates carry them out.
  `HistorySystem` lets the process die before, between or after the writes of any commit, also inside
  `Open`, and shows that every account comes back in its old or its new state; `HistoryFaults` lets any
  write fail at any time. `HistoryDelivery` and `HistoryNumbers` say in plain numbers what a delivered report
  shows and records.
- **Hook input** (`Json*.dfy`, `HookParser.dfy`). The streaming recogniser is proved to accept exactly the
  texts of the grammar of RFC 8259, sections 2 to 7, within its limits, and to project the right fields;
  `JsonText` says what string literals mean, and `JsonDocuments` what follows for documents as hooks write them.
- **Activity** (`Activity*.dfy`). Leases of chats and turns: bounded bookkeeping simulates unbounded
  bookkeeping, expiry is invisible and exactly timed, eviction is deterministic. `ActivityTrace` reads the
  whole state off the events, `ActivityEviction` says what capacity pressure costs.
- **Hub** (`Hub*.dfy`). Which snapshots count, which sessions stay hidden after a consumer switches
  accounts, which collector feeds an account's history, and whether history may treat two reports as
  consecutive. `HubTrace` reads every delivery off the submissions alone, `HubChats` what is published of a
  session. `HubHandoff` follows the deliveries into the history tracker.
- **Control socket** (`Utf8.dfy`, `Frame*.dfy`, `ControlSocket.dfy`). Frames and fragmented messages against
  RFC 6455, sections 5.2 to 5.5, bit by bit in `FrameWire`, and the line stream made of them.
- **RPC client** (`Rpc*.dfy`). Callers, reader, cancellation and failure as interleaved atomic steps.

The pattern is the same throughout: specification functions say what a step does to the state, lemmas
prove what all runs of such steps guarantee, and classes with the source's fields and loops are proved to
take exactly those steps. Instants are whole nanoseconds since the zero time; `Unix` rounds down. Clocks,
masks, the success of file writes and everything received are parameters, so the results hold for all
of them.

Four results are less than one might expect of the code, and are stated as the code has them, each with its
exact condition and a concrete input. A rebaseline to a different window forgets the old one without trace
unless the transition is unambiguous (`HistoryRules.RebaselineForgetsIff`, `HistoryRules.ForgottenWindow`).
While the core file is not rewritten, a stored adjustment about the anchored window hides a later move of its
reset (`HistoryRules.WindowConserved`, `HistoryRules.DroppedMove`); on a clean tracker this cannot happen
(`HistorySystem.DeliveryConserves`). A connection that closes between two fragments of a message is reported
as a clean end of the stream (`FrameMessages.EndedIff`, `FrameMessages.TruncatedMessageEnds`). The comparison
of two collectors' quota is symmetric because validation rejects duplicate buckets, and not otherwise
(`HubQuota.AgreesBackIff`, `HubQuota.AgreesNeedsUniqueIds`).

## Model

| member | source | states |
|---|---|---|
| `HistoryRules.ObserveKeeps` | packages/codex-usage-dashboard/internal/history/history.go:437-554 | An accepted report keeps an account well-formed: valid windows, strictly increasing event resets, adjustments in detection order and never mere jitter, a candidate only while nothing is anchored |
| `HistoryRules.RebaselineKeeps` | packages/codex-usage-dashboard/internal/history/history.go:322-383 | The same for a report after a change of collector |
| `HistoryRules.WindowConserved` | packages/codex-usage-dashboard/internal/history/history.go:461-516 | An observation removes or moves the anchored window exactly when the reset moved by more than the tolerance; in mid-week it then records this very move as the newest adjustment, unless an adjustment about the same window against the same core revision is stored, and from the boundary on the completed event, unless the list is full of later ones; never both |
| `HistoryRules.DroppedMove` | packages/codex-usage-dashboard/internal/history/history.go:1144-1148 | A concrete run in which such a stored adjustment, a fall of usage that was taken back, hides a later move of the reset |
| `HistoryRules.MoveRecorded` | packages/codex-usage-dashboard/internal/history/history.go:487-505 | When the core file has absorbed every adjustment, a mid-week move of the reset is recorded as the newest adjustment, with the old window before and the new one after |
| `HistoryRules.JitterNeverMovesAnchor` | packages/codex-usage-dashboard/internal/history/history.go:461-486 | However many reports within 120 s of the anchored reset arrive, reset, start and first observation stay put, no event appears, and the usage is that of the last report: jitter cannot accumulate |
| `HistoryRules.RebaselineOnlyInfers` | packages/codex-usage-dashboard/internal/history/history.go:322-383 | A rebaseline records only adjustments that project to an inferred early reset of the window it replaced; an event it records is the ordinary rollover at the boundary |
| `HistoryRules.RebaselineForgetsOnlyAmbiguous` | packages/codex-usage-dashboard/internal/history/history.go:343-383 | A rebaseline to a different window records the completed event at the boundary, the move when an early reset can be inferred, each under the condition of an observation, and otherwise nothing at all |
| `HistoryRules.RebaselineForgetsIff` | packages/codex-usage-dashboard/internal/history/history.go:343-383 | With all adjustments absorbed, the old window is forgotten if and only if it is mid-week and no early reset can be inferred, or its event has no room |
| `HistoryRules.ForgottenWindow` | packages/codex-usage-dashboard/internal/history/history.go:356-383 | A concrete window and report where a rebaseline forgets the old window |
| `HistoryRules.AppendEventKeeps` | packages/codex-usage-dashboard/internal/history/history.go:1169-1180 | Adding an event keeps the list strictly increasing by reset time, valid and within 1024 |
| `HistoryRules.AppendEventExact` | packages/codex-usage-dashboard/internal/history/history.go:1169-1180 | After adding an event its reset time is on record if and only if the list was not full of later ones |
| `HistoryRules.AppendAdjustmentKeeps` | packages/codex-usage-dashboard/internal/history/history.go:1140-1158 | Adding an adjustment keeps the list valid, in detection order and within 1024; a retry of the same transition changes nothing, and no two entries ever share core revision and window |
| `HistoryAnchoring.RunKeepsUnique` | packages/codex-usage-dashboard/internal/history/history.go:1140-1158 | Over any run of an account no two stored adjustments share core revision and window |
| `HistoryAnchoring.CandidateSpan` | packages/codex-usage-dashboard/internal/history/history.go:518-554 | Over any run, a candidate remembers the first report of an uninterrupted span of unused reports with the identical reset |
| `HistoryAnchoring.ZeroAnchorNeedsStableSpan` | packages/codex-usage-dashboard/internal/history/history.go:518-554 | Observing anchors a 0% window only after an earlier accepted report at least 90 s older with the same reset, and with no use and no other reset reported between |
| `HistoryAnchoring.StableZeroAnchors` | packages/codex-usage-dashboard/internal/history/history.go:518-554 | Identical unused reports anchor exactly when they span 90 s, and the anchor is the first of them |
| `HistoryAnchoring.SlidingZeroNeverAnchors` | packages/codex-usage-dashboard/internal/history/history.go:518-554 | A sliding unused window is never anchored and leaves no event and no adjustment |
| `HistoryDelivery.AcceptedIff` | packages/codex-usage-dashboard/internal/history/history.go:437-460 | A report is accepted exactly when it is of a week of 10080 minutes that resets later, within seven days and five minutes, with a valid percentage; and it proposes that week |
| `HistoryDelivery.RepeatedAnchors` | packages/codex-usage-dashboard/internal/history/history.go:518-606 | Identical unused reports with prunings anywhere between anchor the window exactly when they span 90 s, with the first report's times, as long as each pruning comes before two minutes after the reset and within the retention period after the latest report; until then the candidate counts them |
| `HistoryDelivery.DeliveredUnusedAnchors` | packages/codex-usage-dashboard/internal/history/history.go:269-606 | The same end to end: for any run of deliveries to a running tracker, with any writes failing and any reads and reports about other accounts between, an account there is room for is anchored exactly when its identical unused reports span 90 s |
| `HistoryNumbers.DeliveredShown` | packages/codex-usage-dashboard/internal/history/history.go:269-606 | What an account shows after any accepted report, rebaseline or not, in plain numbers: the anchored week with the new usage when the reset is within 120 s, else the reported week if it was used, else the candidate that has waited 90 s; and the candidate left otherwise |
| `HistoryNumbers.DeliveredRecords` | packages/codex-usage-dashboard/internal/history/history.go:269-606 | What an account has on record after any accepted report: exactly the events inside retention and the one the report completed, with its times and usage, up to the latest 1024; and exactly the adjustments inside retention and the one the report tells of, unless it is stored already |
| `HistoryNumbers.OthersPruned` | packages/codex-usage-dashboard/internal/history/history.go:556-606 | An account no accepted report is about is only pruned, with the exact moment each part goes |
| `HistoryNumbers.FlagsExact` | packages/codex-usage-dashboard/internal/history/history.go:322-554 | A report raises each change flag exactly when it changes that part |
| `HistoryNumbers.CommitWrites` | packages/codex-usage-dashboard/internal/history/history.go:297-320 | For every outcome of the writes: revision, both files, both dirty flags, core revision and the degraded flag after a commit |
| `HistoryNumbers.CoreAccepted` | packages/codex-usage-dashboard/internal/history/history.go:816-839 | The core file is accepted exactly when it holds at most 128 keys of 64 hexadecimal digits, at most 1024 events each, and only weeks of 604800 s |
| `HistoryNumbers.SideAccepted` | packages/codex-usage-dashboard/internal/history/history.go:841-902 | The sidecar is accepted exactly when its adjustments are such as the tracker writes, with exactly the reasons they show |
| `HistoryNumbers.OpeningRefused` | packages/codex-usage-dashboard/internal/history/history.go:158-205 | A retention period outside 7 to 366 days, a relative path or an invalid file is refused and the files stay as they are, and nothing else is refused beforehand; without a path the tracker starts empty at revision 1 |
| `HistoryReplay.ReplayChain` | packages/codex-usage-dashboard/internal/history/history.go:633-664 | A contiguous chain of adjustments recorded since the last core write is replayed end to end, whatever absorbed adjustments precede it |
| `HistoryReplay.ReplayIgnoresOthers` | packages/codex-usage-dashboard/internal/history/history.go:633-664 | Adjustments recorded against other core revisions are never replayed |
| `HistoryReplay.ReportTold` | packages/codex-usage-dashboard/internal/history/history.go:437-554 | What one report records in the sidecar replays to exactly the window the report left in memory |
| `HistoryReplay.SanitizeRemovesJitter` | packages/codex-usage-dashboard/internal/history/history.go:666-692 | Sanitizing leaves no reset change within tolerance, keeps every proper adjustment, and rewrites the rest only to a usage decrease |
| `HistoryReplay.SanitizeIdentity` | packages/codex-usage-dashboard/internal/history/history.go:666-692 | Lists the tracker itself wrote are not touched by sanitizing |
| `HistoryRecovery.DeliverKeeps` | packages/codex-usage-dashboard/internal/history/history.go:269-320 | Every delivery keeps the whole memory well-formed and raises the change flag of every map it changes |
| `HistoryRecovery.DeliverSlots` | packages/codex-usage-dashboard/internal/history/history.go:269-295 | A delivery acts on each account by itself: pruning for all, the report only for the account it names |
| `HistoryRecovery.FilesValid` | packages/codex-usage-dashboard/internal/history/history.go:816-902 | Both files written from a well-formed memory pass the validators that reading them applies |
| `HistoryRecovery.CommitKeeps` | packages/codex-usage-dashboard/internal/history/history.go:297-320 | A commit keeps the memory well-formed whether or not its writes succeed, and leaves a dirty flag only when a write failed |
| `HistoryRecovery.InMemoryAsIfWritten` | packages/codex-usage-dashboard/internal/history/history.go:305-313 | A tracker without a path commits exactly like one whose writes never fail |
| `HistoryRecovery.FreshMemoryInv` | packages/codex-usage-dashboard/internal/history/history.go:173-179 | A tracker without a path starts well-formed |
| `HistoryRecovery.PersistedClean` | packages/codex-usage-dashboard/internal/history/history.go:297-320 | After both writes memory and files agree and every stored CoreRevisionBefore is below the core revision |
| `HistoryRecovery.DeliverTold` | packages/codex-usage-dashboard/internal/history/history.go:437-554 | After a delivery to a clean tracker at most the newest adjustment of an account is still to be absorbed, it starts from the core file's window, and the core file is then due to be written |
| `HistoryOpening.RecoveredSlotIs` | packages/codex-usage-dashboard/internal/history/history.go:633-664 | What opening makes of an account's two halves: the core window, or the window left by the one pending adjustment |
| `HistoryOpening.OpenSucceeds` | packages/codex-usage-dashboard/internal/history/history.go:158-256 | Opening what a stopped tracker left succeeds unless a write fails, even when the files together name 129 accounts; it yields a clean tracker, and dying half-way leaves files that can be opened again |
| `HistoryOpening.AnyFileOpened` | packages/codex-usage-dashboard/internal/history/history.go:158-256 | What opening makes of an account in any two files it accepts, those of earlier versions included: the stored adjustments without jitter, the window replayed from them, all pruned; and where there was jitter the sidecar is written again |
| `HistoryOpening.SanitizedAre` | packages/codex-usage-dashboard/internal/history/history.go:666-692 | Sanitizing keeps every adjustment whose resets differ by more than 120 s or that tells of usage alone, reduces a jitter change to the usage that fell with it, and drops the others |
| `HistorySystem.RunKeeps` | packages/codex-usage-dashboard/internal/history/history.go:158-320 | Over every run of deliveries, reads, stops, crashes before, between or after the writes, and restarts: a running tracker is well-formed and agrees with its files, a stopped one can be opened |
| `HistorySystem.FreshInv` | packages/codex-usage-dashboard/internal/history/history.go:184-205 | A machine without files, or with a core file from before the sidecar existed, is a legal start of such a run |
| `HistorySystem.OpenAlwaysSucceeds` | packages/codex-usage-dashboard/internal/history/history.go:158-256 | In every reachable stopped state an open whose writes succeed yields a tracker |
| `HistorySystem.CleanRecovers` | packages/codex-usage-dashboard/internal/history/history.go:207-255 | Clean files say exactly what memory says, and nothing is pending: reopening them replays nothing |
| `HistorySystem.HalfRecovers` | packages/codex-usage-dashboard/internal/history/history.go:633-664 | A new sidecar over the old core file gives the new window to the account whose transition it holds and the old window to the others |
| `HistorySystem.OpenGives` | packages/codex-usage-dashboard/internal/history/history.go:158-256 | Opening gives each account what the files say, pruned |
| `HistorySystem.CrashAtomic` | packages/codex-usage-dashboard/internal/history/history.go:297-320 | Kill the process anywhere in the commit of a delivery to a clean tracker and reopen: every account has exactly its old or its new state up to pruning, and which one is decided by the writes that happened |
| `HistorySystem.OpenKeepsAnchor` | packages/codex-usage-dashboard/internal/history/history.go:207-255 | Opening, whatever becomes of its own writes, leaves files that anchor the same window |
| `HistorySystem.RecoveryIsIdempotent` | packages/codex-usage-dashboard/internal/history/history.go:207-255 | Any number of crashes inside Open still leads to the same recovered window, while the adjustment to replay is inside retention |
| `HistorySystem.DeliveryIsSteps` | packages/codex-usage-dashboard/internal/history/history.go:269-295 | A delivery is, per account, a pruning step and at most one observing or rebaselining step, so results about runs of one account apply to the tracker |
| `HistorySystem.DeliveryConserves` | packages/codex-usage-dashboard/internal/history/history.go:269-295 | No observation delivered to a clean tracker loses a window: if it goes or moves, then in mid-week this very move is the newest adjustment, and from the boundary on its event is on record unless it ended before the retention cutoff or the list is full of later ones |
| `HistoryFaults.AnyRunKeeps` | packages/codex-usage-dashboard/internal/history/history.go:158-320 | Over every run with any writes failing at any time, whether or not the process lives on, memory and each file stay well-formed and the tracker knows the core file's revision |
| `HistoryFaults.EveryStateValid` | packages/codex-usage-dashboard/internal/history/history.go:816-902 | In every state that can be reached at all, both files pass the validators that reading applies, and so would the files written next |
| `HistoryFaults.OpenFaulty` | packages/codex-usage-dashboard/internal/history/history.go:158-256 | Opening after any such run either fails or yields a well-formed tracker |
| `HistoryPoints.PublicResetPoints` | packages/codex-usage-dashboard/internal/history/history.go:1061-1103 | The loops of the projection compute the timeline the next two rows are about |
| `HistoryPoints.TimelineSound` | packages/codex-usage-dashboard/internal/history/history.go:1061-1138 | The timeline is strictly increasing, at most 1024 long, made only of completed weeks, at their resets, and early resets, where the new week began, and every early reset is more than 120 s from every other point |
| `HistoryPoints.TimelineComplete` | packages/codex-usage-dashboard/internal/history/history.go:1061-1138 | Every completed week has its point with its own times and usage, and every early reset a point within 120 s, unless the timeline is full of 1024 later ones |
| `HistoryTracker.AddEvent` | packages/codex-usage-dashboard/internal/history/history.go:1169-1180 | The duplicate search, sort and cut of the event list |
| `HistoryTracker.AddAdjustment` | packages/codex-usage-dashboard/internal/history/history.go:1140-1158 | The duplicate search, sort and cut of the adjustment list, and whether anything was recorded |
| `HistoryTracker.ObserveInto` | packages/codex-usage-dashboard/internal/history/history.go:437-554 | The branches of an observation, step by step, end in the specified slot and flags |
| `HistoryTracker.RebaselineInto` | packages/codex-usage-dashboard/internal/history/history.go:322-383 | The branches of a rebaseline end in the specified slot and flags |
| `HistoryTracker.ReplaySidecar` | packages/codex-usage-dashboard/internal/history/history.go:644-660 | The replay loop of one account |
| `HistoryTracker.Tracker.PruneLocked` | packages/codex-usage-dashboard/internal/history/history.go:556-606 | Pruning every map, with flags set exactly when the map changed |
| `HistoryTracker.Tracker.EnsureAccount` | packages/codex-usage-dashboard/internal/history/history.go:385-404 | Admission of an account under the limit of 128, keeping the key list sorted |
| `HistoryTracker.Tracker.CommitChanges` | packages/codex-usage-dashboard/internal/history/history.go:297-320 | Marking and committing, with and without a path |
| `HistoryTracker.Tracker.ApplySnapshot` | packages/codex-usage-dashboard/internal/history/history.go:269-295 | Prune, admit, apply, commit: the new memory and the new files are those of the specified delivery and commit |
| `HistoryTracker.Tracker.PersistHistory` | packages/codex-usage-dashboard/internal/history/history.go:710-733 | Writing the core file: revision, dirty flag and disk afterwards, for a write that succeeds or fails |
| `HistoryTracker.Tracker.PersistAdjustments` | packages/codex-usage-dashboard/internal/history/history.go:735-753 | Writing the sidecar likewise |
| `HistoryTracker.Tracker.SanitizeAdjustmentJitter` | packages/codex-usage-dashboard/internal/history/history.go:666-692 | The rewriting loops over all accounts |
| `HistoryTracker.Tracker.ReconcileSidecar` | packages/codex-usage-dashboard/internal/history/history.go:633-664 | The replay loops over all accounts |
| `HistoryTracker.Tracker.Open` | packages/codex-usage-dashboard/internal/history/history.go:158-256 | The check of the retention period, the mode without a path, loading, repairing, replaying, pruning and writing back: the tracker and files are those of the specified opening, including every refusal |
| `HistoryTracker.Tracker.Snapshot` | packages/codex-usage-dashboard/internal/history/history.go:406-435 | A read prunes and commits and lists every account once, in key order |
| `JsonProof.ValueSound` | packages/codex-usage-dashboard/internal/activity/hook_input.go:107-344 | What one skipValue call consumes is whitespace and one RFC 8259 value nesting no deeper than the limit allows |
| `JsonProof.ValueComplete` | packages/codex-usage-dashboard/internal/activity/hook_input.go:107-344 | The text of every RFC 8259 value that nests no deeper is consumed whole |
| `JsonProjection.ProjectionExact` | packages/codex-usage-dashboard/internal/activity/hook_input.go:18-105 | The input is accepted with result h if and only if it has at most maxPayload bytes, is one object surrounded only by whitespace, nests discarded values at most 128 deep, has lifecycle fields that are strings of at most 770 raw bytes, and projects to h |
| `JsonProjection.DocumentSound` | packages/codex-usage-dashboard/internal/activity/hook_input.go:41-105 | An accepted text is the text of a derivation tree, and the result is that tree's projection |
| `JsonProjection.DocumentComplete` | packages/codex-usage-dashboard/internal/activity/hook_input.go:41-105 | Every acceptable tree's text is accepted |
| `JsonProjection.ReadingUnique` | packages/codex-usage-dashboard/internal/activity/hook_input.go:41-105 | A text has one projection, whatever derivation is chosen |
| `JsonProjection.ProjectionIsLast` | packages/codex-usage-dashboard/internal/activity/hook_input.go:49-97 | Each field is the decoded value of the last top-level member whose decoded key has that name; nested members never count |
| `JsonProjection.CaptureSuffices` | packages/codex-usage-dashboard/internal/activity/hook_input.go:9-12 | No literal decoding to at most 128 bytes exceeds the capture limit |
| `JsonProjection.KeysCaptured` | packages/codex-usage-dashboard/internal/activity/hook_input.go:9-12 | No spelling of the three keys exceeds the capture limit, so no escaped spelling goes unnoticed |
| `JsonProjection.CaptureLimitTight` | packages/codex-usage-dashboard/internal/activity/hook_input.go:9-12 | The limit cannot be lowered: some 128-byte identifier needs exactly 770 bytes |
| `JsonDecode.SpellingBound` | packages/codex-usage-dashboard/internal/activity/hook_input.go:9-12 | A decoded string has at least a sixth of the bytes of its spelling |
| `JsonText.MeaningOfText` | packages/codex-usage-dashboard/internal/activity/hook_input.go:243-247 | A literal's value is the meanings of its pieces in order (RFC 8259, section 7): plain characters stand for themselves, each two-character escape for its byte, a four-digit escape for its code point, a surrogate pair for one character, and lone surrogates and stray bytes for U+FFFD |
| `JsonText.EveryLiteralMeans` | packages/codex-usage-dashboard/internal/activity/hook_input.go:215-268 | Every literal the scanner accepts is made of such pieces |
| `JsonText.PlainText` | packages/codex-usage-dashboard/internal/activity/hook_input.go:243-247 | UTF-8 text without a backslash stands for itself |
| `JsonText.EncodedAsTable` | packages/codex-usage-dashboard/internal/activity/hook_input.go:243-247 | Code points are written as in the table of RFC 3629, section 3 |
| `JsonText.Alphabet` | packages/codex-usage-dashboard/internal/activity/hook_input.go:386-400 | The whitespace, digits, hexadecimal digits and escape letters of the grammar, by name |
| `JsonDocuments.KeysNamed` | packages/codex-usage-dashboard/internal/activity/hook_input.go:71-79 | The three keys in their ordinary spelling name the three fields, and nothing else does |
| `JsonDocuments.PlainDocument` | packages/codex-usage-dashboard/internal/activity/hook_input.go:18-105 | The document a hook sends, with plainly spelled keys and any plain identifiers of up to 768 bytes, projects to those identifiers |
| `JsonDocuments.LongFieldRefused` | packages/codex-usage-dashboard/internal/activity/hook_input.go:99-105 | A lifecycle field of more than 768 plain bytes is refused, whatever follows |
| `JsonDocuments.DepthExact` | packages/codex-usage-dashboard/internal/activity/hook_input.go:107-180 | A value that is not kept may nest exactly 128 containers |
| `JsonDocuments.PayloadLimit` | packages/codex-usage-dashboard/internal/activity/hook_input.go:18-37 | Payload limits above 16 MiB and inputs above the limit are refused, and no others for their size |
| `HookParser.ProjectInput` | packages/codex-usage-dashboard/internal/activity/hook_input.go:18-97 | The byte-cursor parser, method by method and loop by loop, computes exactly the specified projection, and terminates by cursor progress |
| `ActivityModel.VictimUnique` | packages/codex-usage-dashboard/internal/activity/tracker.go:278-314 | There is never a choice of victim |
| `ActivityModel.VictimExists` | packages/codex-usage-dashboard/internal/activity/tracker.go:278-314 | A non-empty set of chats has a victim, older than every other: idle before running, then by times and names |
| `ActivityModel.OlderTotal` | packages/codex-usage-dashboard/internal/activity/tracker.go:295-314 | Of two distinct keys exactly one is older |
| `ActivityModel.OlderTransitive` | packages/codex-usage-dashboard/internal/activity/tracker.go:295-314 | Being older is transitive |
| `ActivityModel.OlderIrreflexive` | packages/codex-usage-dashboard/internal/activity/tracker.go:295-314 | No chat is older than itself; with the two rows above this is a strict total order |
| `ActivityProof.PruneTwice` | packages/codex-usage-dashboard/internal/activity/tracker.go:316-340 | Pruning earlier first changes nothing about a later pruning |
| `ActivityProof.PruningIsInvisible` | packages/codex-usage-dashboard/internal/activity/tracker.go:176-210 | In any time-ordered run, all prunings by reads or the timer can be left out without changing any later pruned state |
| `ActivityProof.NextExpiryExact` | packages/codex-usage-dashboard/internal/activity/tracker.go:342-376 | The timer's deadline is the first instant at which pruning changes anything; before it pruning is the identity |
| `ActivityProof.ApplyKeeps` | packages/codex-usage-dashboard/internal/activity/tracker.go:176-251 | Every event keeps flags, times and the bounds 32, 64 and 2048, and the chat it is about survives its own event |
| `ActivityProof.StartIsStable` | packages/codex-usage-dashboard/internal/activity/tracker.go:176-235 | No event moves the beginning of a session that is already there; a new session begins with its event |
| `ActivityProof.RunKeeps` | packages/codex-usage-dashboard/internal/activity/tracker.go:176-251 | So do all runs |
| `ActivityProof.EvictLeaves` | packages/codex-usage-dashboard/internal/activity/tracker.go:240-251 | Eviction terminates below the limit and does nothing when already below |
| `ActivityProof.EvictDropsOldest` | packages/codex-usage-dashboard/internal/activity/tracker.go:240-251 | Whatever eviction drops is older than everything of its scope that it keeps |
| `ActivityProof.RunSimulates` | packages/codex-usage-dashboard/internal/activity/tracker.go:176-266 | The bounded bookkeeping simulates one that remembers every turn, over all runs |
| `ActivityProof.RunningIsRight` | packages/codex-usage-dashboard/internal/activity/tracker.go:176-266 | A chat with a turn neither ended nor past its lease is running; a running chat had a start or refresh within one lease; while the saturation lease is unset both bookkeepings agree exactly |
| `ActivityProof.NeverSaturated` | packages/codex-usage-dashboard/internal/activity/tracker.go:253-266 | Unless the unbounded bookkeeping once had more than 32 turns of a chat, the saturation lease is unset, the tracked turns are exactly those, and the chat runs exactly while there is one |
| `ActivityProof.SaturatesIff` | packages/codex-usage-dashboard/internal/activity/tracker.go:253-266 | Over every run, the saturation lease is ever set if and only if the unbounded bookkeeping once had more than 32 turns |
| `ActivityTrace.TrackerExact` | packages/codex-usage-dashboard/internal/activity/tracker.go:176-340 | While no user has more than 64 live sessions, there are no more than 2048 in all, and no session has more than 32 turns, the whole tracker is what the events alone say: which sessions are live, since when, last touched when, with which turns, and running exactly while one is |
| `ActivityEviction.OthersKept` | packages/codex-usage-dashboard/internal/activity/tracker.go:176-314 | Beyond that: an event displaces another chat only when its session is new and the user has 64, then the foremost of the user, or else there are 2048, then the foremost of all; idle before running, longest untouched first; and never more than one |
| `ActivityProof.OnlyIdleChatsExpire` | packages/codex-usage-dashboard/internal/activity/tracker.go:316-340 | Pruning deletes a chat only if even unbounded bookkeeping has no turn of it left |
| `ActivityTracker.Bind` | packages/codex-usage-dashboard/internal/activity/tracker.go:133-171 | Identities are accepted exactly when names are valid and neither names nor UIDs repeat; two peers never update the same user |
| `ActivityTracker.ParsedIff` | packages/codex-usage-dashboard/internal/activity/tracker.go:56-100 | A message stands for an event exactly when it has schema 1, one of the five action names, a session id of 1 to 128 opaque characters, and a turn id exactly for the three actions about a turn |
| `ActivityTracker.PruneAll` | packages/codex-usage-dashboard/internal/activity/tracker.go:316-340 | The pruning loops in any map order, with the changed flag set exactly when something was dropped |
| `ActivityTracker.Oldest` | packages/codex-usage-dashboard/internal/activity/tracker.go:278-293 | The search finds the one victim in any map order |
| `ActivityTracker.MakeRoomFor` | packages/codex-usage-dashboard/internal/activity/tracker.go:240-251 | Both eviction loops terminate in the specified eviction |
| `ActivityTracker.NextExpiry` | packages/codex-usage-dashboard/internal/activity/tracker.go:342-376 | The earliest deadline, and none exactly when there are no chats |
| `ActivityTracker.List` | packages/codex-usage-dashboard/internal/activity/tracker.go:442-456 | The listed chats are exactly the user's, each once, in key order |
| `ActivityTracker.Tracker.Apply` | packages/codex-usage-dashboard/internal/activity/tracker.go:176-210 | Unknown peers and malformed events change nothing; any other event leads to the specified state |
| `ActivityTracker.Tracker.NextExpiryDelay` | packages/codex-usage-dashboard/internal/activity/tracker.go:342-376 | The delay to the first instant at which pruning would change anything, cut off at zero |
| `ActivityTracker.Tracker.SnapshotAt` | packages/codex-usage-dashboard/internal/activity/tracker.go:428-456 | A read prunes and lists exactly what is left, in key order |
| `ActivityTracker.Tracker.Lookup` | packages/codex-usage-dashboard/internal/activity/tracker.go:458-467 | A lookup prunes first and then finds the session exactly if it is left |
| `HubQuarantine.AcceptedIffNewest` | packages/codex-usage-dashboard/internal/hub/hub.go:276-286 | A snapshot counts exactly when it is newer than every earlier one of its user |
| `HubQuarantine.SwitchesIff` | packages/codex-usage-dashboard/internal/hub/hub.go:293-302 | A consumer switches accounts exactly when a good report names another account than the last good one, whatever came between |
| `HubQuarantine.AtInv` | packages/codex-usage-dashboard/internal/hub/hub.go:256-429 | After any reports: visible and quarantined ids are disjoint, nothing is visible while an inventory is awaited, kept snapshots carry no session ids, membership is the last good account |
| `HubQuarantine.PendingExact` | packages/codex-usage-dashboard/internal/hub/hub.go:343-374 | An inventory is awaited exactly when the latest switch without one has not been followed by one |
| `HubQuarantine.QuarantineExact` | packages/codex-usage-dashboard/internal/hub/hub.go:322-374 | An id is quarantined exactly when a report made it ambiguous and no later complete good observation showed it gone |
| `HubQuarantine.QuarantineSafety` | packages/codex-usage-dashboard/internal/hub/hub.go:296-374 | An id seen at a switch, or in the first inventory after a switch that had none, stays unpublished until a complete good observation shows it absent from inventory and hooks |
| `HubQuarantine.UnambiguousShown` | packages/codex-usage-dashboard/internal/hub/hub.go:819-840 | Nothing else is hidden: a session hooks report is shown unless it is ambiguous or an inventory is awaited |
| `HubQuarantine.ClearedIsFree` | packages/codex-usage-dashboard/internal/hub/hub.go:325-342 | After the clearing observation, and until another switch, the id is free again |
| `HubQuarantine.ShownIsRecent` | packages/codex-usage-dashboard/internal/hub/hub.go:309-320 | A session shown without a hook was listed by the App Server at most 90 s ago, with only good reports of the same account since |
| `HubQuarantine.VersionTells` | packages/codex-usage-dashboard/internal/hub/hub.go:382-420 | Two equal account versions of a user mean exactly that no sign-out, API key or account change lies between |
| `HubQuarantine.BoundaryIff` | packages/codex-usage-dashboard/internal/hub/hub.go:382-420 | What ends a sign-in, in terms of the reports alone |
| `HubQuarantine.NothingCarriedOver` | packages/codex-usage-dashboard/internal/hub/hub.go:382-420 | A kept lifetime total or thread-name index was reported by a good report with no sign-out and no account change since |
| `HubChats.KeptExactly` | packages/codex-usage-dashboard/internal/hub/hub.go:376-424 | The kept lifetime total and thread index are exactly the latest that a good report gave, unless the sign-in ended since |
| `HubChats.ShownExactly` | packages/codex-usage-dashboard/internal/hub/hub.go:296-374 | Exactly which sessions of a consumer are shown, in terms of its reports: only under the account it is signed in to; those hooks report, unless ambiguous or an inventory is awaited; and those of the inventory in force, unless ambiguous when it came, while reports are current and it is at most 90 s old |
| `HubSafety.HubQuarantineSafety` | packages/codex-usage-dashboard/internal/hub/hub.go:256-438 | The quarantine end to end: from any run of the hub over all users to the projected chats of any account |
| `HubSafety.HubHidesAmbiguous` | packages/codex-usage-dashboard/internal/hub/hub.go:775-861 | No ambiguous session, and no session at all while an inventory is awaited, is among the projected chats |
| `HubPublishing.ProjectedExactly` | packages/codex-usage-dashboard/internal/hub/hub.go:775-840 | The projection holds a chat for exactly the sessions that may be shown |
| `HubPublishing.ProjectedRunning` | packages/codex-usage-dashboard/internal/hub/hub.go:806-846 | A projected chat runs exactly when the App Server or some hook says so |
| `HubPublishing.ProjectedTimes` | packages/codex-usage-dashboard/internal/hub/hub.go:863-911 | A projected chat has known times in order that span every hook report of its session, whatever the order of the reports |
| `HubChats.ProjectedTimesExact` | packages/codex-usage-dashboard/internal/hub/hub.go:863-911 | A projected chat began with the earliest and was updated with the latest of the times its inventory entry and its hook reports give |
| `HubChats.ProjectedName` | packages/codex-usage-dashboard/internal/hub/hub.go:775-840 | A projected chat has the App Server's name of its session, else the one in the thread index, else the default |
| `HubPublishing.ActiveChats` | packages/codex-usage-dashboard/internal/hub/hub.go:775-848 | The loops compute the projection and keep its running chats |
| `HubPublishing.ListChats` | packages/codex-usage-dashboard/internal/hub/hub.go:842-860 | The chats are listed each once, the latest update first, then by user and task name |
| `HubTracker.Tracker.Chats` | packages/codex-usage-dashboard/internal/hub/hub.go:775-861 | The published chats of an account: the running ones of the projection, each once, in display order |
| `HubQuota.AgreesSymmetric` | packages/codex-usage-dashboard/internal/hub/hub.go:929-950 | For reports without duplicate buckets the comparison does not depend on the order |
| `HubQuota.AgreesExactly` | packages/codex-usage-dashboard/internal/hub/hub.go:929-1047 | Reports without duplicate buckets agree exactly when plan and credits are the same and the main windows and all buckets, matched by id, are within five percent and 300 s |
| `HubQuota.AgreesBackIff` | packages/codex-usage-dashboard/internal/hub/hub.go:929-950 | An agreement holds the other way round if and only if the left report has no duplicate buckets |
| `HubQuota.AgreesNeedsUniqueIds` | packages/codex-usage-dashboard/internal/hub/hub.go:929-950 | With a duplicate bucket on one side it does: a concrete pair agrees one way only |
| `HubQuota.Compare` | packages/codex-usage-dashboard/internal/hub/hub.go:929-950 | The index and the loop compute the comparison |
| `HubHistory.OwnAccount` | packages/codex-usage-dashboard/internal/hub/hub.go:557-669 | What is handed to an account's history is a good snapshot of that very account, with its collector's current sign-in |
| `HubHistory.SourceIsSticky` | packages/codex-usage-dashboard/internal/hub/hub.go:678-720 | Without a fresh anchor the source changes only once the previous collector left its sign-in or account, or has not reported well for longer than the staleness limit |
| `HubHistory.ConflictNeedsAnchor` | packages/codex-usage-dashboard/internal/hub/hub.go:651-667 | Disagreeing collectors pause history unless a fresh anchor decides |
| `HubHistory.DeliveryKind` | packages/codex-usage-dashboard/internal/hub/hub.go:440-462 | Over all runs: a delivery is an observation exactly when the account's previous delivery had the same source, otherwise a rebaseline, and never a repetition |
| `HubHistory.ObserveNeverBridges` | packages/codex-usage-dashboard/internal/hub/hub.go:440-462 | Between an observation and the previous delivery of its account the collector neither signed out nor reported an API key or another account |
| `HubHistory.SourceLeftForReason` | packages/codex-usage-dashboard/internal/hub/hub.go:678-720 | Over whole runs, consecutive deliveries to an account come from different sources only if the later is a fresh anchor, or the earlier collector ended its sign-in in between, or sent no good report for longer than the staleness limit |
| `HubHistory.DeliveredOwn` | packages/codex-usage-dashboard/internal/hub/hub.go:557-669 | Over whole runs, whatever is delivered to an account is its collector's last good snapshot, of that account |
| `HubTrace.MembershipTraced` | packages/codex-usage-dashboard/internal/hub/hub.go:376-424 | A consumer is signed in to the account of its latest report that counts, looking past unavailable ones, until a sign-out or API key |
| `HubTrace.DeliveredIff` | packages/codex-usage-dashboard/internal/hub/hub.go:440-462 | Over whole runs, an account's history receives something exactly after an operation that counts, when some collector is heard, unless that is the one of the previous delivery and it sent nothing new; who is heard is said in terms of the submissions alone |
| `HubTrace.DeliveredContent` | packages/codex-usage-dashboard/internal/hub/hub.go:440-462 | It receives the latest report of the collector that is heard, without session ids, observed if that collector also made the previous delivery with an unbroken sign-in, and rebaselined otherwise |
| `HubTrace.HeldReportDelivered` | packages/codex-usage-dashboard/internal/hub/hub.go:678-704 | Every good report that counts of the collector an account listens to is delivered as an observation, unless an anchor reports or two reporters contradict each other |
| `HubTrace.AnchorReportDelivered` | packages/codex-usage-dashboard/internal/hub/hub.go:678-688 | An account's anchor, while it reports, is the only source, and each of its good reports that count is delivered |
| `HubTrace.HandoffDelivered` | packages/codex-usage-dashboard/internal/hub/hub.go:704-720 | When the account listens to no one, or that collector's last good report is too old, the first reporter is delivered as a rebaseline |
| `HubTrace.PausedDelivers` | packages/codex-usage-dashboard/internal/hub/hub.go:651-704 | Nothing is delivered while two reporters contradict each other without an anchor, or while the collector listened to fails but sent a good report recently |
| `HubHandoff.AddedAdjustment` | packages/codex-usage-dashboard/internal/hub/hub.go:464-470 | An adjustment a delivery adds to the history belongs to the delivered account, and after a rebaseline it is an inferred early reset of the anchored window |
| `HubHandoff.HandoffsManufactureNothing` | packages/codex-usage-dashboard/internal/hub/hub.go:440-470 | From hub runs to the history tracker: an added adjustment that is no inferred early reset has the account's previous delivery come from the same collector with its sign-in unbroken since |
| `HubHandoff.HandedShown` | packages/codex-usage-dashboard/internal/hub/hub.go:464-470 | After a delivery the account of the snapshot shows the week its main window reports, under the exact rule for unused weeks |
| `HubHandoff.HandedNothing` | packages/codex-usage-dashboard/internal/hub/hub.go:464-470 | A snapshot without a good account or without a weekly main window leaves every account to pruning, and so does any snapshot the others |
| `HubHandoff.HeldReportShown` | packages/codex-usage-dashboard/internal/hub/hub.go:256-470 | From a collector's submission to the account's history: a good report with a used week by the consumer an account listens to is what the account shows next |
| `HubHistory.EntryIsOwnRun` | packages/codex-usage-dashboard/internal/hub/hub.go:256-438 | A user's entry depends on that user's reports alone, so the results about one user's run hold in every hub run |
| `HubTracker.TrackSessions` | packages/codex-usage-dashboard/internal/hub/hub.go:296-374 | The quarantine and inventory steps of Apply, loop by loop |
| `HubTracker.UpdateAccount` | packages/codex-usage-dashboard/internal/hub/hub.go:376-424 | The account steps of Apply |
| `HubTracker.SelectSource` | packages/codex-usage-dashboard/internal/hub/hub.go:678-720 | The selection loops find the specified source whatever the order of candidates |
| `HubTracker.Conflicting` | packages/codex-usage-dashboard/internal/hub/hub.go:918-927 | The pairwise comparison finds a conflict exactly when there is one |
| `HubTracker.NewUpdates` | packages/codex-usage-dashboard/internal/hub/hub.go:440-462 | The update loop in any map order, and the sorted order of its result |
| `HubTracker.Tracker.Apply` | packages/codex-usage-dashboard/internal/hub/hub.go:256-438 | Untrusted and impersonating peers and late snapshots change nothing; any other snapshot leads to the specified hub and deliveries |
| `HubTracker.Tracker.SetHistory` | packages/codex-usage-dashboard/internal/hub/hub.go:199-214 | Attaching a history tracker delivers every current source afresh; detaching delivers nothing |
| `FrameModel.DecodeEncode` | packages/codex-usage-dashboard/internal/codex/control.go:410-426 | A frame's bytes under section 5.2 of RFC 6455 have one reading, its own fields, across all length forms and for every mask |
| `FrameModel.EncodeDecode` | packages/codex-usage-dashboard/internal/codex/control.go:314-361 | Whatever reads as a frame is the shortest encoding of that frame |
| `FrameModel.ReadFrameExact` | packages/codex-usage-dashboard/internal/codex/control.go:314-361 | The client reads exactly what the standard reads, less masked frames, reserved bits, long or fragmented control frames and data frames at or above the line limit; the stream ends cleanly only between frames |
| `FrameModel.ReceivesIff` | packages/codex-usage-dashboard/internal/codex/control.go:314-361 | A frame is received if and only if the input starts with the encoding of a frame the client takes |
| `FrameModel.MaskedTwice` | packages/codex-usage-dashboard/internal/codex/control.go:422-426 | Masking undoes itself |
| `FrameWire.XorIsBitwise` | packages/codex-usage-dashboard/internal/codex/control.go:422-426 | What the client masks with is exclusive or: every bit of the result is the sum modulo 2 of the two bits, and no other byte has these bits |
| `FrameWire.MaskedUnmasks` | packages/codex-usage-dashboard/internal/codex/control.go:422-426 | A receiver that unmasks as section 5.3 of RFC 6455 says, bit by bit, recovers the payload and nothing else |
| `FrameWire.EncodedAsLaidOut` | packages/codex-usage-dashboard/internal/codex/control.go:410-426 | The bytes of a frame are the one byte string laid out as section 5.2 says: bits, opcode, length in the fewest bytes, key, masked payload |
| `FrameWire.CloseAccepted` | packages/codex-usage-dashboard/internal/codex/control.go:444-465 | A close payload is accepted exactly when it is empty, or a code that may be sent followed by UTF-8 |
| `FrameModel.ValueOfBigEndian` | packages/codex-usage-dashboard/internal/codex/control.go:412-421 | Network byte order round trip |
| `FrameModel.BigEndianOfValue` | packages/codex-usage-dashboard/internal/codex/control.go:332-350 | And back |
| `Utf8.WellFormedExactly` | packages/codex-usage-dashboard/internal/codex/control.go:303-307 | The texts accepted as UTF-8 are exactly the encodings of sequences of Unicode scalar values |
| `FrameMessages.ReassemblesAny` | packages/codex-usage-dashboard/internal/codex/control.go:258-312 | Any legal fragmentation of a short enough UTF-8 text with pings and pongs anywhere is read back as that text, with one pong per ping in order and with its payload |
| `FrameMessages.MessageIff` | packages/codex-usage-dashboard/internal/codex/control.go:258-312 | A message is received if and only if the input starts with a legal fragmentation of it; illegal opcode sequences therefore never yield one |
| `FrameMessages.EndedIff` | packages/codex-usage-dashboard/internal/codex/control.go:258-282 | The stream is reported as ended if and only if no byte is left, possibly inside an unfinished message, or a valid close frame arrives, which is echoed |
| `FrameMessages.TruncatedMessageEnds` | packages/codex-usage-dashboard/internal/codex/control.go:258-265 | Three concrete bytes, a first fragment and nothing more, that read as a clean end |
| `FrameMessages.ReadExplained` | packages/codex-usage-dashboard/internal/codex/control.go:258-312 | Every outcome, failures included, comes after a legal beginning of a message whose pings have been answered |
| `ControlSocket.StreamOfMessages` | packages/codex-usage-dashboard/internal/codex/control.go:219-230 | Messages, however fragmented, become lines: each text followed by one newline |
| `ControlSocket.ReadTakesNext` | packages/codex-usage-dashboard/internal/codex/control.go:219-230 | One read takes the next bytes off the stream, at least one into a non-empty buffer, and fails only when all was delivered |
| `ControlSocket.ReadsConcatenate` | packages/codex-usage-dashboard/internal/codex/control.go:219-230 | Reads with buffers of any sizes concatenate to the stream |
| `ControlSocket.LinesDelivered` | packages/codex-usage-dashboard/internal/codex/control.go:219-230 | End to end from fragmented messages to the bytes of any sequence of reads |
| `ControlSocket.SentReadsBack` | packages/codex-usage-dashboard/internal/codex/control.go:369-442 | Any byte string laid out and masked as the standard says, as every sent frame is, reads back as final, with its opcode and payload, for every mask |
| `ControlSocket.StandardExamples` | packages/codex-usage-dashboard/internal/codex/control.go:258-442 | The examples of section 5.7 of RFC 6455: a text message, the same in two fragments with a ping between, which is answered, and the masked answer |
| `ControlSocket.MaskPayload` | packages/codex-usage-dashboard/internal/codex/control.go:422-426 | The masking loop, whose result unmasks bit by bit to the payload |
| `ControlSocket.WebSocket.TakeFrame` | packages/codex-usage-dashboard/internal/codex/control.go:314-361 | Reading a frame off the connection, step by step |
| `ControlSocket.WebSocket.SendFrame` | packages/codex-usage-dashboard/internal/codex/control.go:369-442 | The bytes written are one whole masked frame, laid out as the standard says; long control frames are refused |
| `ControlSocket.WebSocket.ReadTextMessage` | packages/codex-usage-dashboard/internal/codex/control.go:258-312 | The reassembly loop, what it consumes and what it sends back |
| `ControlSocket.WebSocket.Read` | packages/codex-usage-dashboard/internal/codex/control.go:219-230 | One read, with the rest of the line kept for the next |
| `ControlSocket.WebSocket.WriteLine` | packages/codex-usage-dashboard/internal/codex/control.go:240-250 | A payload is sent exactly when it is one line within the limit |
| `RpcProof.RunKeeps` | packages/codex-usage-dashboard/internal/codex/client.go:441-484 | The invariant of the pending protocol over every interleaving |
| `RpcProof.ReaderNeverBlocks` | packages/codex-usage-dashboard/internal/codex/client.go:592-603 | Whenever the reader has a response to send, the one-slot channel is free |
| `RpcProof.IdsNeverReused` | packages/codex-usage-dashboard/internal/codex/client.go:442-447 | No two calls ever have the same id |
| `RpcProof.IdsStay` | packages/codex-usage-dashboard/internal/codex/client.go:442-447 | No call's id ever changes |
| `RpcProof.OneOwnMessage` | packages/codex-usage-dashboard/internal/codex/client.go:592-603 | A channel carries at most one message over its life, and only one bearing its own id |
| `RpcProof.SentArrived` | packages/codex-usage-dashboard/internal/codex/client.go:566-610 | What was sent on any channel arrived from the server |
| `RpcProof.AnsweredIsOwn` | packages/codex-usage-dashboard/internal/codex/client.go:458-470 | An answered call has the server's response to its own id |
| `RpcProof.DuplicateIgnored` | packages/codex-usage-dashboard/internal/codex/client.go:592-598 | A second response, and one to an unknown or withdrawn id, changes nothing |
| `RpcProof.NothingForgotten` | packages/codex-usage-dashboard/internal/codex/client.go:441-484 | While the client is healthy an unfinished call is registered, or its response is in its channel or in the reader's hand |
| `RpcProof.ResponseReaches` | packages/codex-usage-dashboard/internal/codex/client.go:592-603 | The response to a registered call reaches that call without the reader waiting |
| `RpcProof.CallAnswered` | packages/codex-usage-dashboard/internal/codex/client.go:441-470 | Whatever has happened, a call made while the reader is idle and answered by the server ends with the response to its own id, withdrawn, with no other call touched |
| `RpcProof.CallCancelled` | packages/codex-usage-dashboard/internal/codex/client.go:471-484 | A call cancelled while it waits gives up for that reason, withdrawn, and a late response changes nothing |
| `RpcProof.CallFailed` | packages/codex-usage-dashboard/internal/codex/client.go:448-457 | A call whose request cannot be written gives up for that reason, withdrawn |
| `RpcProof.FailureReleases` | packages/codex-usage-dashboard/internal/codex/client.go:661-674 | When the client fails every waiting call can leave as closed |
| `RpcProof.WaitsOtherwise` | packages/codex-usage-dashboard/internal/codex/client.go:458-484 | Until then only its response or its own cancellation ends a waiting call |
| `RpcClient.Client.Enroll` | packages/codex-usage-dashboard/internal/codex/client.go:442-447 | Taking an id and registering the channel is one atomic step |
| `RpcClient.Client.TakeResponse` | packages/codex-usage-dashboard/internal/codex/client.go:592-598 | Looking up and withdrawing an id is one atomic step; unknown ids are skipped |
| `RpcClient.Client.SendResponse` | packages/codex-usage-dashboard/internal/codex/client.go:599-603 | The send never waits |
| `RpcClient.Client.ReceiveResponse` | packages/codex-usage-dashboard/internal/codex/client.go:459-470 | A caller that receives gets the response to its own id |
| `RpcClient.Client.RemovePending` | packages/codex-usage-dashboard/internal/codex/client.go:655-659 | Giving up withdraws the caller's own id |
| `RpcClient.Client.BeginFail` | packages/codex-usage-dashboard/internal/codex/client.go:661-672 | Only the first failure drops the registrations |

## Left out

- HistorySystem.RunKeeps: a write goes missing only together with the process; for a tracker that lives on after failed writes only well-formedness of memory and files is claimed (`HistoryFaults.AnyRunKeeps`), because then neither file need agree with memory.
- HistorySystem.RecoveryIsIdempotent: holds while the adjustment to replay is inside retention; one that expires between crashes is pruned, as the code intends.
- HistorySystem.OpenAlwaysSucceeds: speaks of files the tracker wrote; hand-edited files and those of other versions are outside it.
- HistoryTracker.Tracker.Open: a file that exists but cannot be read or parsed is not modelled; the error is that of an invalid file.
- HistoryTracker.AddEvent: `sort.Slice` is modelled as moving the new last element into place, keeping the order of ties.
- Files are values that are replaced as a whole or not at all; permissions, fsync, JSON text and the 16 MiB cap are not modelled.
- One Dafny type serves both the anchored window and the observation inside an adjustment, which have the same fields; integers are unbounded; comparing two times ignores monotonic readings.
- The active window and a tracked chat are values that are stored back, not objects shared through pointers.
- HookParser.ProjectInput: a reader error other than the end of input is not modelled.
- The mapping from hook event names to activity actions and the server around the tracker are not modelled.
- ActivityProof.RunningIsRight: the unbounded bookkeeping forgets a chat when the tracker evicts or expires it, so the statement is about chats that are present.
- ActivityTracker.Tracker.NextExpiryDelay: the timer loop and the change signal around it are not modelled.
- HubTracker.Tracker.Apply: snapshot validation is a precondition; session ids of one inventory are unique, so an inventory is a map.
- HubHistory.SourceIsSticky: account keys stand for a digest of the normalised email that is taken to be injective; normalised display texts are compared as given.
- HubPublishing.ActiveChats: the sanitising of task names is not modelled, nor are the display fields of accounts and users, the CLI version, demo mode and the subscriber channels.
- ControlSocket.WebSocket.SendFrame: writes succeed; deadlines, the write gate and a failing socket are not modelled. The payload is shorter than 2^63 bytes.
- ControlSocket.WebSocket.TakeFrame: after a failed read the rest of the input is of no further use and is not described.
- The opening handshake of the socket is not part of this model.
- RpcProof.RunKeeps: request text, write serialisation, notifications and server-initiated requests are not modelled; ids do not overflow.
- Collectors, host parsing, thread pagination, HTTP, SSE, the browser code and all Nix files are I/O, presentation or deployment.
