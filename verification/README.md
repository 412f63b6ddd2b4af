# Verified models of the agent service

The agent service runs coding agents in containers it creates and removes, keeps a durable
record of every accepted session, and must come back from any crash without losing evidence.
This project models the parts of it where a mistake would only show after a crash, a race or an
unlucky byte, and proves what they promise. `dafny verify dfyconfig.toml` checks everything.

| file | component |
|---|---|
| `Recovery.dfy`, `RecoveryRuns.dfy`, `RecoverySweep.dfy` | startup recovery: the sweeps over raw session trees and result directories (`src/api.rs`) |
| `Progress.dfy`, `ProgressCrash.dfy` | the durable progress log, over a directory that can lose power (`src/progress.rs`) |
| `Jks.dfy` | the keystore normalizer: a parser, and the windows it lets be rewritten (`docker/scripts/normalize_jks.py`) |
| `Framing.dfy` | the framing of the captured event stream, and what a certificate covers (`src/result_parse.rs`) |
| `Deliverables.dfy`, `Text.dfy` | the list of declared deliverables, its admission rule and its canonical record (`src/deliverables.rs`), with UTF-8 (RFC 3629, section 3) and JSON strings (RFC 8259, sections 5 and 7) |
| `Settlement.dfy`, `StartGate.dfy`, `Endings.dfy`, `RawMarker.dfy` | the life of a session: settling a running agent, the start gate against cancellations, endings, and retained raw evidence (`src/session.rs`) |
| `Publication.dfy` | publishing the terminal of a finished session, and what the next startup makes of it (`src/runtime.rs`) |
| `Catalog.dfy`, `Retention.dfy` | the release catalog, and what may be removed from a host (`scripts/collect.py`) |
| `Snapshot.dfy`, `Bundle.dfy` | accounting for the bundled tree, and no-clobber publication (`src/bundle.rs`) |
| `Common.dfy` | options, results and big-endian fields |

## How it is modelled

Code that changes objects or files step by step is a class or a loop whose methods are proved
against a specification function, or state what they leave outright; the main theorems are
lemmas about those functions. Where a call can fail, its outcome is either a field of an `Io`
record or a nondeterministic choice, so that every theorem is about all outcomes. Where a crash
can interrupt, the specification is the list of every state on the way, and the theorems are
about every element of it. Digests are arbitrary functions. Errors are values; their wording is
not modelled, their kind and order are.

## Where the code does not do what it says

Each of these is proved of the model, with the exact condition under which the promise holds.

* A publication of progress is one-or-the-other under a power loss exactly when the directory
  was synced since the snapshot in memory became visible
  (`ProgressCrash.PublicationIsAtomicExactlyWhenSettled`). `ProgressReporter::open` adopts a
  snapshot without syncing its directory, so one plain crash followed by a power loss during a
  later publication takes back an event that the reopened log had shown
  (`ProgressCrash.AdoptedEventCanBeLost`). No event whose publication returned success is ever
  lost.
* A publication succeeds whatever the size of the encoding, and the next `open` reads the snapshot
  exactly when that size is within the document bound
  (`ProgressCrash.PublishedSnapshotOpensExactlyWithinTheBound`). The bound does not count JSON
  escaping, so that an encoding can exceed it.
* A startup that stops while it removes a pre-acceptance tree, once the first entry is gone, leaves
  a tree that no later startup accepts (`RecoveryRuns.AttemptsConverge`,
  `RecoveryRuns.RemovalCanBeCutShort`).
* The comment at `src/session.rs:516-518` says that shutdown holds the launch fence while it makes
  a cancellation observable. It does, except in its last step (`src/runtime.rs:2124`), which
  cancels every token without the fence. The gate of a session opens in order exactly when it
  opens before submission, after removal returned, or under a fence at which the token was seen
  clear and around which no such step has gone (`StartGate.GateOpensInOrder`). That step finds a
  token unset only if shutdown failed to record its intent for that session under the fence
  (`src/runtime.rs:2097-2115`); otherwise only a panic, which drops the gate, opens it out of
  order (`StartGate.OutOfOrderOnlyByPanicOrFailedIntent`). Both happen
  (`StartGate.UnfencedShutdownCanOpenACancelledGate`, `StartGate.PanicCanOpenTheGate`).
* What the framing helper keeps of an over-limit record is fixed by the bytes alone exactly for
  limits of at least 511 (`Framing.KeptRecordIsFixedExactly`). The service's own limit is far
  above that (`src/result_parse.rs:277`).

## Model

| member | source | states |
|---|---|---|
| Recovery.CommitmentStates | src/api.rs:2511-2626 | finishing an interrupted publication refuses only what startup refuses, keeps all evidence and the verdict, and drops the second name of one inode only once the first is durable |
| Recovery.TreatmentKeepsEvidence | src/api.rs:2137-2309 | in every state a sweep takes a session through, no result directory that holds a record, an archive or anything else is gone, its archive and other entries are as they were, and a raw tree is touched only under a durable non-retained terminal whose archive is intact, or as an exact pre-acceptance layout beside nothing |
| Recovery.RemainsArePreserved | src/api.rs:2396-2412 | a result directory without a terminal that holds a draft, an archive or anything else is unacceptable, and is as it was in every state either sweep takes it through |
| Recovery.EvidenceKeptIsTransitive | src/api.rs:2337-2339 | keeping evidence composes over any number of steps |
| Recovery.TreatmentConverges | src/api.rs:2113-2437 | no state on the way changes whether startup accepts the session or what it leaves, except a pre-acceptance tree that lost some entries |
| Recovery.StateSweepDecides | src/api.rs:2166-2308 | the state sweep passes every acceptable session, and leaves only retained raw trees |
| Recovery.CrossCheckFindsNoRawState | src/api.rs:2439-2470 | after the state sweep, the results sweep never meets raw state beside a non-retained terminal |
| Recovery.ResultSweepDecides | src/api.rs:2388-2428 | the results sweep refuses exactly the unacceptable sessions, and leaves the recovered state of the others |
| Recovery.SweepsDecideAcceptability | src/api.rs:2113-2437 | the two sweeps pass a session exactly when it is acceptable, a predicate over what is on disk, and then leave its recovered state |
| RecoveryRuns.SweepStates | src/api.rs:2137-2309 | in every state of a sweep each session is in a state of its own treatment and no other session is affected |
| RecoveryRuns.SweepEnds | src/api.rs:2137-2319 | a sweep refuses exactly when one listed session is refused; otherwise each listed session ends its own treatment |
| RecoveryRuns.StartupDecides | src/api.rs:720-734 | for every listing order, startup goes through exactly when all sessions are acceptable, and ends in one and the same store |
| RecoveryRuns.StartupKeepsEvidence | src/api.rs:720-734 | at every step of a startup, completed or not, all evidence is kept |
| RecoveryRuns.StartupConverges | src/api.rs:720-734 | at every step of a startup the next one would decide and leave the same |
| RecoveryRuns.AttemptsKeepEvidence | src/api.rs:2113-2437 | any number of startups interrupted anywhere keep all evidence |
| RecoveryRuns.AttemptsConverge | src/api.rs:2113-2437 | after interrupted startups the store is acceptable exactly when it was and no pre-acceptance tree was left half removed, and the end is the same |
| RecoveryRuns.RemovalCanBeCutShort | src/api.rs:2279-2308 | every acceptable pre-acceptance tree can be left half removed |
| RecoveryRuns.RecoveredIsAFixedPoint | src/api.rs:2113-2437 | recovery changes nothing of what it leaves: exactly the retained terminals' trees, durable terminals, and no temporary name |
| RecoveryRuns.UnpublishedDraftRefuses | src/api.rs:2590-2602 | a terminal draft without a committed terminal refuses startup, and stays |
| RecoveryRuns.RemainsStopEveryStartup | src/api.rs:2245-2262 | such a directory anywhere in the store makes a startup refuse, and no step of one changes it |
| RecoverySweep.LocalState.CommittedTerminalForSweep | src/api.rs:2511-2626 | whatever call fails, a prefix of the specified states has happened; success reports the terminal, a refusal is the specified one |
| RecoverySweep.LocalState.SweepEntry | src/api.rs:2137-2309 | one entry of either sweep goes through a prefix of its treatment, all of it on success |
| RecoverySweep.LocalState.SweepDirectory | src/api.rs:2113-2437 | a whole sweep goes through a prefix of its specified states, all of them on success |
| RecoverySweep.LocalState.RecoverLocalState | src/api.rs:720-734 | startup stops for a failed call exactly if one it made failed; otherwise it succeeds exactly on an acceptable store, leaving its recovered state |
| Progress.ValidateDocument | src/progress.rs:453-498 | accepts exactly the documents of this session and schema whose records count from one, keep time and counters from falling, and start as accepted |
| Progress.Directory.ReplaceAtomically | src/progress.rs:309-427 | goes through exactly the directory states of the replacement protocol for every combination of failing calls |
| Progress.ProgressReporter.Publish | src/progress.rs:150-217 | memory, latch, directory states and result of a publication, in the order of its checks; on success, and when the snapshot is visible but not durable, memory grew by one event, which carries the phase, message and counters that were asked for, the next revision, and the later of the two times |
| Progress.Open | src/progress.rs:134-145 | discards an unpublished replacement only behind a valid snapshot, and adopts that snapshot |
| ProgressCrash.BuiltDocumentIsValid | src/progress.rs:429-440 | the encoder's validation never refuses what a publication built, whose revision never overflows |
| ProgressCrash.ReplacementStates | src/progress.rs:309-427 | every state of a replacement shows the old snapshot or the complete new one; a durable outcome leaves only the new one to come back |
| ProgressCrash.UnpublishedFileIsRemoved | src/progress.rs:354-385 | a replacement that fails before it is published leaves its file behind exactly if it could not remove it, and a synced removal is for good |
| ProgressCrash.PublicationStates | src/progress.rs:150-217 | every state of a publication shows the history before it or after it, and what a power loss may bring back was durable before or is the new history |
| ProgressCrash.PublicationAgrees | src/progress.rs:189-217 | memory and the visible file agree, up to one more event once the latch is set, and a success is durable at once |
| ProgressCrash.RequestedEventIsRecorded | src/progress.rs:180-215 | memory and the visible snapshot grow by exactly the event that was asked for, and no state of a publication shows any other event |
| ProgressCrash.PublicationEndsExactly | src/progress.rs:150-217 | which publications return success, which are visible without being durable, which fail, and which are refused for their message, the event bound or falling counters |
| ProgressCrash.OpenRecoversTheVisible | src/progress.rs:503-546 | opening recovers the visible history whatever the unpublished file holds, which it discards only behind a snapshot it could read; it succeeds exactly when the calls it makes do and the snapshot fits its bound |
| ProgressCrash.CreatedWorld | src/progress.rs:107-130 | a created log shows one accepted event with the given message and starts every run |
| ProgressCrash.ActionKeepsInvariant | src/progress.rs:134-217 | publications, startups, crashes and power losses keep the snapshot complete and valid and the acknowledged events in it |
| ProgressCrash.RunKeepsInvariant | src/progress.rs:134-217 | the same over every run |
| ProgressCrash.AcknowledgedEventsSurvive | src/progress.rs:189-193 | every event returned with success is in whatever a later startup recovers |
| ProgressCrash.SettledStopIsAtomic | src/progress.rs:309-427 | from a synced directory, stopping at any step shows the history before or after |
| ProgressCrash.PublicationIsAtomicExactlyWhenSettled | src/progress.rs:309-427 | stopping at any step shows the history before or after exactly when the directory had been synced |
| ProgressCrash.AdoptedEventCanBeLost | src/progress.rs:503-523 | an unsynced snapshot is adopted as it is, and a power loss takes it back |
| ProgressCrash.PublishedSnapshotOpensExactlyWithinTheBound | src/progress.rs:29-34 | with every call succeeding a publication succeeds whatever its size, and is read back exactly when its encoding is within the bound |
| ProgressCrash.HistoryIsOrdered | src/progress.rs:465-490 | time and every counter never fall between any two events |
| ProgressCrash.HistoryIsValidExactly | src/progress.rs:453-498 | a history is valid exactly when it starts as accepted, counts from one within its bound, keeps its messages within theirs, and orders every two of its events |
| ProgressCrash.LatchedForGood | src/progress.rs:162-167 | after a failed publication no sequence of publications changes memory or file |
| Jks.FindChainEnd | docker/scripts/normalize_jks.py:77-79 | the chain loop ends where the chain does, or fails as the specification does |
| Jks.FindTimestampOffsets | docker/scripts/normalize_jks.py:55-87 | the nested loops compute the recursive specification, failures included |
| Jks.StoreAccepted | docker/scripts/normalize_jks.py:55-87 | every encoding of entries is accepted with the encoder's timestamp positions |
| Jks.StoreDecoded | docker/scripts/normalize_jks.py:55-87 | every accepted body is the encoding of some list of entries |
| Jks.AcceptsExactlyEncodings | docker/scripts/normalize_jks.py:55-87 | acceptance is exactly being an encoding |
| Jks.EncodingIsUnique | docker/scripts/normalize_jks.py:55-87 | a body encodes at most one list of entries |
| Jks.OffsetsAreTheEncoders | docker/scripts/normalize_jks.py:69-87 | the offsets are increasing disjoint eight-byte windows in bounds, one per entry, where the encoder put the timestamps |
| Jks.WriteTimestamps | docker/scripts/normalize_jks.py:112-113 | packing in place rewrites exactly the windows |
| Jks.RewriteAt | docker/scripts/normalize_jks.py:112-113 | each window holds its new stamp and every other byte is unchanged |
| Jks.RewriteReplacesStamps | docker/scripts/normalize_jks.py:112-113 | rewriting the windows of an encoding is encoding the entries with new stamps |
| Jks.ParserIgnoresTimestamps | docker/scripts/normalize_jks.py:55-87 | bodies that differ only inside the windows parse alike |
| Jks.NormalizeJks | docker/scripts/normalize_jks.py:98-120 | the in-place normalizer computes its specification, failures included |
| Jks.NormalizesExactlyStores | docker/scripts/normalize_jks.py:98-120 | normalization succeeds exactly on encodings followed by the digest of the password, "Mighty Aphrodite" and the body, with an epoch whose milliseconds fit; it yields the same entries restamped and redigested, and never fails its own check |
| Jks.RefusalsAreExact | docker/scripts/normalize_jks.py:90-108 | a refusal names the first check that fails: the size, the epoch, the password, the digest, or else the format |
| Jks.NormalizationPreservesEverythingElse | docker/scripts/normalize_jks.py:98-120 | the length, the windows and every body byte outside them are kept |
| Jks.NormalizationIsCanonical | docker/scripts/normalize_jks.py:98-120 | keystores that differ only in timestamps and digest normalize to equal bytes |
| Jks.LastNormalizationWins | docker/scripts/normalize_jks.py:98-120 | normalizing twice, even to two epochs, is the last normalization |
| Framing.FramesSplitTheStream | src/result_parse.rs:371-413 | the frames join to the stream, each but the last ends at its only line feed |
| Framing.SplitIsUnique | src/result_parse.rs:371-413 | there is no other such split |
| Framing.GrowKeepsTheBound | src/result_parse.rs:394-403 | adding one chunk keeps the record equal to the frame so far, or a bounded prefix once over the limit |
| Framing.ReadBoundedRecord | src/result_parse.rs:373-413 | for every chunking, one call yields the next frame of the pending bytes, over limit exactly when it exceeds the limit, and consumes exactly that frame |
| Framing.ReadOpenedEventSnapshot | src/result_parse.rs:263-364 | the owner is told of exactly the frames of the whole stream in order, and the digest covers the complete ones; the scan gives up exactly at a failing call of the owner, and certifies exactly at the boundary when neither a gap nor a line latched a refusal and the run is complete |
| Framing.GapsAreFramingFailures | src/result_parse.rs:299-317 | the gaps are the over-limit, unterminated and blank frames, each counted by its bytes, whatever the chunking |
| Framing.ReportIsExact | src/result_parse.rs:270-322 | for each frame, whether it is offered as a line or reported as over limit, unterminated, blank or cut off by a failed read, from its bytes and how reading ended |
| Framing.NoGapMeansAllComplete | src/result_parse.rs:299-322 | without a gap every frame is a complete in-limit line, offered in order |
| Framing.CertificateCoversTheExtent | src/result_parse.rs:310-331 | a scan to the boundary without a gap hashed every byte of the opened extent |
| Framing.ReadEventSnapshot | src/result_parse.rs:106-125 | a snapshot is certified exactly when the opened extent was read whole, the owner neither refused nor found the run incomplete, and the replay agrees to its length and digest; every byte of it was then hashed |
| Framing.EndMatchesStream | src/result_parse.rs:324-331 | the boundary is reached exactly when the stream is as long as the opened extent |
| Framing.GrowAllKeepsTheBound | src/result_parse.rs:394-403 | for every way of handing out a frame the record is the frame, or a bounded prefix of it once over the limit |
| Framing.KeptRecordIsFixedExactly | src/result_parse.rs:395-400 | what is kept of an over-limit frame is independent of how it was handed out exactly for limits of at least 511, and is then its first 512 bytes |
| Deliverables.CheckPath | src/deliverables.rs:197-258 | the checks in order find the first fault of a path |
| Deliverables.DescendsExactly | src/deliverables.rs:219-233 | a walk descends one new entry per component exactly when every component is ordinary |
| Deliverables.PathRuleMeansStrictDescent | src/deliverables.rs:197-258 | a path is admitted exactly when it has no NUL, descends strictly below /artifacts component by component, and fits both Linux bounds |
| Deliverables.New | src/deliverables.rs:99-123 | the loop with its index of earlier paths computes admission |
| Deliverables.AdmissionIsExact | src/deliverables.rs:99-123 | a list is admitted exactly when all paths pass, are distinct and fit as JSON; otherwise the least offending entry is named |
| Deliverables.AdmittedJsonIsCompact | src/deliverables.rs:111-115 | an admitted list is carried as the shortest text that reads as it, the only one of its length unless a path needs a hexadecimal escape |
| Deliverables.BoundsAreEquivalent | src/deliverables.rs:38-64 | the bounds of the list, of its argument and of its record are one bound |
| Deliverables.RecordsRoundTripExactly | src/deliverables.rs:136-178 | bytes read back as a list exactly when the list is admitted and they are its record |
| Deliverables.ReaderRefusesBytes | src/deliverables.rs:155-167 | bytes are refused for their length first, then exactly if they encode no text, then exactly if the text lacks the record's ends |
| Deliverables.ReaderRefusesTheList | src/deliverables.rs:168-176 | the text between the ends is refused if it is no array of strings, then for what admission refuses, and last if it is not the compact spelling |
| Deliverables.RecordIsDeterminedByItsPaths | src/deliverables.rs:149-178 | two different records never decode to one list |
| JsonStrings.ParsePrint | src/deliverables.rs:111-115 | parsing inverts printing for every list of strings |
| JsonStrings.CodeIsRead | src/deliverables.rs:168-170 | any character is read from its code, or from the codes of its surrogates, in hexadecimal digits of either case |
| JsonStrings.SpaceIsSkipped | src/deliverables.rs:168-170 | the reader skips any spaces, tabs and line ends before a token, so that only the comparison with the compact form refuses them |
| JsonStrings.PlainTextIsItself | src/deliverables.rs:111-115 | text without quotes, backslashes and control characters is printed as it is |
| JsonStrings.EscapesAreCompact | src/deliverables.rs:111-115 | exactly those characters are escaped, with two characters where there is a short escape and else as their code in four lower-case digits |
| JsonStrings.PrintIsShortest | src/deliverables.rs:111-115 | no shorter text reads as the list, and no other of that length unless a hexadecimal escape is needed |
| Utf8.DecodeEncode | src/deliverables.rs:163 | decoding inverts encoding for every text |
| Utf8.EncodeDecode | src/deliverables.rs:163 | whatever decodes is the encoding of its text |
| Settlement.Agent.Settle | src/session.rs:1028-1123 | for every schedule of what is ready first, what then, and how each turns out, exactly its actions happen in order: the first is what was ready first, the one after a complete capture what was ready then, and none turns out otherwise; the status is cancelled exactly if a cancellation was ready first or after a complete capture; no completed future is polled again, and the result is what the actions call for |
| Settlement.SettlementsAreSchedules | src/session.rs:1028-1123 | the logs that call for a settlement are exactly those of the schedules |
| Settlement.NothingIsAskedTwice | src/session.rs:1028-1123 | the exit is taken once, the capture, a stop and a removal at most once |
| Settlement.RemovalFollowsAFailedCancellationStop | src/session.rs:1096-1112 | removal is asked for only right after a cancellation's stop failed |
| Settlement.StopFollowsItsCause | src/session.rs:1049-1112 | a stop is asked for right after a failed wait, a lost capture or a cancellation |
| Settlement.StopIsAskedExactly | src/session.rs:1049-1112 | a stop is asked for exactly if there was such a cause, and removal exactly if the stop of a cancellation failed |
| Settlement.DiagnosticsAreExact | src/session.rs:1049-1122 | each diagnostic is given exactly when what it reports has happened |
| Settlement.CodeIsTheAgents | src/session.rs:1049-1122 | an exit code is returned exactly if the agent's wait gave it, and the status is cancelled exactly if a cancellation was seen |
| Settlement.ProducerStoppedExactly | src/session.rs:1049-1122 | the producer counts as stopped exactly on a plain exit, a successful stop or a successful removal |
| Settlement.SilentExactly | src/session.rs:1043-1122 | nothing is reported exactly when nothing failed and no stop ran out of grace |
| StartGate.RunIsConsistent | src/session.rs:375-575 | every interleaving keeps the fence with its holder and justifies every opening of the gate |
| StartGate.NothingIsLeftBehind | src/session.rs:375-575 | over every interleaving a finished task holds neither gate nor fence, and what it submitted is removed unless it panicked |
| StartGate.EveryTaskCanFinish | src/session.rs:394-575 | from every reachable state, cancelled or not, the task comes to its end by its own steps once a canceller has let the fence go |
| StartGate.NeverRunsAgain | src/session.rs:538-575 | after a failed release of the gate, or once it finalizes, the task never runs again |
| StartGate.StoppedTaskNeverRuns | src/session.rs:375-575 | an error at any stage, or a token seen at any stage that looks at it, keeps the task from ever running, or from running on |
| StartGate.UndisturbedTaskRuns | src/session.rs:375-575 | a task that nothing fails or cancels opens the gate under its fence and runs |
| StartGate.FlagsAreHistory | src/runtime.rs:2093-2124 | over every run, the flags for a failed intent, a cancellation around the fence and a panic say exactly whether it happened |
| StartGate.RecordedCancellationIsSeen | src/runtime.rs:2093-2111 | a canceller that finds the fence free and records its intent sets the token under it, lets it go, and counts as no failed intent |
| StartGate.OpeningIsTheMoment | src/session.rs:514-575 | the gate opens at most once, and what is recorded of its opening is what held at that moment |
| StartGate.GateOpensInOrder | src/session.rs:375-575 | over every interleaving the gate opens in order exactly when it opens before submission, after removal returned, or under a fence at which the token was seen clear and that no unfenced cancellation has gone around |
| StartGate.OutOfOrderOnlyByPanicOrFailedIntent | src/runtime.rs:2093-2124 | it opens out of order only by a panic, or by a shutdown that failed to record its intent for this session |
| StartGate.CancelledFirstForGood | src/session.rs:514-537 | a token set before the fence was taken stays decisive over every continuation |
| StartGate.EarlyCancellationKeepsTheGateShut | src/session.rs:514-537 | after a cancellation published before the task takes the fence, the gate opens only before submission, after removal returned, or by a panic, whatever follows |
| StartGate.UnfencedShutdownCanOpenACancelledGate | src/runtime.rs:2112-2124 | a shutdown that failed to record its intent can cancel between the check of the token and the release of the gate |
| StartGate.PanicCanOpenTheGate | src/session.rs:375-575 | a panic opens the gate while topology may exist |
| RawMarker.DecisionFitsExactly | src/session.rs:81-141 | a decision fits its terminal exactly when no bundle was accepted without quiescence; there is none exactly after a complete, quiescent, bundled teardown, and else its cause is unproved quiescence, the missing bundle of its phase, or incomplete teardown, in this order |
| RawMarker.MarkerReadBack | src/session.rs:1778-1797 | a printed marker is parsed back to its cause exactly when its path is printable |
| RawMarker.SessionRootsArePrintable | src/config.rs:948 | every marker of a session's own tree is read back, the state directory being the one the configuration admits |
| Publication.CommitIsAcceptable | src/runtime.rs:3825-3857 | every state of the second-name publication of a draft that agrees with its storage and raw tree is one that startup accepts; the draft's own name goes only from a state in which the terminal is durable, and the end is one that recovery leaves alone |
| Publication.PublicationIsOrderly | src/runtime.rs:3466-3603 | whatever fails and wherever the transaction stops, startup accepts the session exactly if its terminal was published, which only a publishable draft is, and the raw tree loses entries only under an accepted bundle |
| Publication.PublishesExactly | src/runtime.rs:3466-3603 | with no failing call the terminal is published exactly if its draft is publishable; a draft that is not is withheld beside an untouched raw tree, whatever fails |
| Publication.PublicationEndsExactly | src/runtime.rs:3466-3603 | whichever calls fail, the terminal is published exactly if its draft is publishable and the calls its own path needs succeed; after a failed removal it is published as retained beside a tree marked with the failed cleanup |
| Publication.WithheldDraftIsExact | src/runtime.rs:3513-3590 | a terminal that is not published leaves its draft, unreadable only if a rewrite after a failed cleanup was cut short, and retaining the tree exactly if that was rewritten into it |
| Publication.RewrittenBeforeMarked | src/runtime.rs:3540-3556 | in every state, a tree is marked with the failed cleanup only beside a record that already says it is retained |
| Publication.ResumingDecidesAlike | src/runtime.rs:3429-3461 | resuming a cut-off publication decides as it would have been decided, unless its draft was rewritten to retain the tree |
| Publication.FinalizedIsPublishableExactly | src/session.rs:1799-1846 | a finalized session is publishable exactly: with its tree, when its bundle was quiescent and any claimed retention was marked; without one, when no unaccepted archive is left; with an unsafe one, never |
| Publication.StartupAcceptsExactlyWhatWasPublished | src/api.rs:2735-2819 | from a finalized session, in every state of its publication, startup accepts exactly what was published |
| Endings.EveryEndingIsAcceptable | src/session.rs:853-883 | on all four ways of ending a bundle is accepted exactly from a quiescent tree, and after a panic or a restart only if no archive was there; the cause fits the terminal, a session with its tree is published exactly when a decided retention was marked, and startup accepts exactly what was published |
| Endings.RemoveAndProveQuiescent | src/session.rs:148-196 | teardown is complete exactly when nothing was noted, that is when removal succeeded and the broker said and showed that no container is left; it is quiescent exactly when the broker said and showed that none runs |
| Endings.DrainCapture | src/session.rs:620-716 | the stream is proved exactly when the producer stopped and its capture was reported and valid; the status is cancelled exactly if the run was settled so or a cancellation came during the capture of a stopped producer |
| Endings.Certify | src/session.rs:743-822 | a result is certified exactly from a proved, readable and certified stream whose missing files were declared |
| Endings.DrawnHasPlaces | src/runtime.rs:257-261 | missing deliverables accepted by the greedy check occur among the declared ones in order |
| Endings.PlacesAreDrawn | src/runtime.rs:257-261 | the greedy check accepts whatever occurs in order |
| Endings.BundleOrRetain | src/session.rs:853-884 | a bundle is accepted exactly when the tree was quiescent, and the tree is retained unless bundled and torn down |
| Endings.FinishRun | src/session.rs:620-925 | a run is no process error exactly when every part was clean and, unless it was cancelled, both exits are the one its certified subtype leaves; status, certificate, bundle and retained tree are stated for every run |
| Endings.FinalizeSetupFailure | src/session.rs:1897-2124 | a setup ending is no process error exactly when it is a cancellation with a clean teardown, readable evidence and a bundle; bundle and retained tree are stated for every ending |
| Catalog.BuildCatalog | scripts/collect.py:222-315 | a history is refused exactly when a pin is malformed, incomplete or clashes; otherwise each first-seen hash is recorded in the release of its name with its own images, and each release has the time, commit, backend and first archive of the first such pin, in whose order the releases are listed |
| Catalog.EnterKeeps | scripts/collect.py:262-280 | entering a release, or another archive of one, keeps every earlier pin recorded |
| Catalog.ArchivesHaveOneOwner | scripts/collect.py:246-266 | no archive hash belongs to two releases |
| Retention.BeforeIsTheLatestEarlier | scripts/collect.py:318-321 | the release before another is exactly the last one cut before it, ties going by the order of the cuts; it is never the release itself |
| Retention.CatalogsHaveOneOwner | scripts/collect.py:222-315 | two catalogs without a common hash give every hash one owner |
| Retention.IdentifyArchives | scripts/collect.py:621-656 | the archives are exactly the candidates whose bytes are pinned for an owner, and a file that carries a release's name without its bytes is refused |
| Retention.SameFileSameRelease | scripts/collect.py:667-674 | the hard-linked names of one file are archives of one release |
| Retention.DecideArchives | scripts/collect.py:667-700 | exactly one name per file of a held release stays, and what is restorable is what those files carry |
| Retention.OneNameStays | scripts/collect.py:671-699 | of a file of a held release one name stays, and only one |
| Retention.OnlyHeldStays | scripts/collect.py:671-690 | no file of any other release stays |
| Retention.HeldIsCollectedOnlyIfRestorable | scripts/collect.py:703-729 | an image of a held release is collected only when a kept archive carries it |
| Retention.Evaluate | scripts/collect.py:809-836 | the archives that stay and the images to collect are exactly the specified ones |
| Retention.ReferencedExactly | scripts/collect.py:576-589 | a release is referenced exactly if evidence holds one of its archive hashes, its defining image or its implementation, or a record that names no release and is newer than its first pin; or if it is the backend of a service release of which this holds |
| Retention.ImageIsKeptExactly | scripts/collect.py:703-729 | an image is kept exactly if it is in use, a base image or of a kept release, or if no kept archive carries it and evidence needs its release, or names it by itself when no release has it |
| Retention.Machine.Delete | scripts/collect.py:925-957 | a delete removes exactly what is marked before the first object that changed |
| Retention.NothingHeldIsLost | scripts/collect.py:667-729 | wherever a delete stops, every image of a kept or referenced release that was on the host or in that release's archive still is on the host or in a surviving verified archive |
| Retention.SeparateCatalogs | scripts/collect.py:222-315 | the service and backend catalogs, which share no hash, give every hash one owner |
| Retention.ArchivesArePinned | scripts/collect.py:246-266 | an archive hash is recorded for a release exactly if some lock state first pins it under that release's name |
| Retention.UnexplainedHasNoOwner | scripts/collect.py:645-655 | a file is refused exactly if no lock state first pins its hash under a name it may carry |
| Retention.CollectHost | scripts/collect.py:768-957 | a whole collection is refused exactly when a history is or a file carries a release's name without its bytes; otherwise it decides on the catalogs of both histories and the archives of the candidates, loses no image of a release that is kept or that evidence names, nor of the backend of such a service release, and removes all it may if nothing changed meanwhile |
| Retention.MoreEvidenceReferencesMore | scripts/collect.py:576-589 | more evidence references no fewer releases |
| Retention.GuaranteedExactly | scripts/collect.py:667-729 | an image is guaranteed exactly if it is on the host or in a surviving verified archive wherever a delete stops |
| Retention.MoreEvidenceLeavesMore | scripts/collect.py:576-729 | more evidence never leaves an image unrecoverable that less evidence left recoverable |
| Retention.VerdictFlipsExactly | scripts/collect.py:703-729 | more evidence turns a kept image into a collected one exactly when an archive that carries it became kept |
| Retention.KeptExactly | scripts/collect.py:789-801 | kept whole are exactly what runs or is checked out, the release cut last before each, the backends that kept service releases run on, and the release cut last before each of these |
| Retention.KeptTogether | scripts/collect.py:789-801 | a running service release keeps its backend, and for both another release, the last one cut before, if one was cut earlier |
| Snapshot.TreeSnapshot.AddArchiveEntryStats | src/bundle.rs:402-426 | both counters grow or, on overflow of either, neither does |
| Snapshot.TreeSnapshot.Walk | src/bundle.rs:370-400 | the walk succeeds exactly on a readable tree that overflows no counter, and adds exactly its leaves, bytes and entries |
| Snapshot.SnapshotSelected | src/bundle.rs:351-368 | the snapshot of a session counts exactly its four directories, and the artifacts among them |
| Snapshot.LeafBytesOfUnion | src/bundle.rs:402-426 | the bytes of disjoint listings add up |
| Snapshot.EntriesCount | src/bundle.rs:370-400 | the entries of a tree hold exactly its leaves and their bytes |
| Snapshot.EqualEntriesCountEqually | src/bundle.rs:140-149 | equal entries mean equal counters, so no change can show in the counters alone |
| Snapshot.ListingsTellTrees | src/bundle.rs:428-500 | two trees are listed alike exactly when they are the same up to the order in which children are listed |
| Snapshot.FirstSnapshotDifference | src/bundle.rs:510-526 | no difference is found exactly when the listings are equal, and one that is found is real |
| Bundle.ResultDirectory.ArchiveAndPublish | src/bundle.rs:116-203 | the archive name is linked exactly when the second reading shows the same tree and every step up to the link succeeded, and only to a whole synced file |
| Bundle.ResultDirectory.RollBack | src/bundle.rs:208-240 | a rollback is clean exactly when each name of this call's that is there can be removed, and then leaves neither |
| Bundle.ResultDirectory.CreateBundle | src/bundle.rs:35-245 | when it succeeds and when its rollback fails, exactly; nobody else's archive or partial is ever lost; success leaves one durable archive with the counts of the tree; a clean failure leaves neither name, a UTF-8 session path presupposed |

## Left out

- Progress.Open: the size of a snapshot's encoding is a parameter; that it fits the document bound is not proved, because the bound does not count JSON escaping.
- Progress.Directory.ReplaceAtomically: a write is whole or torn, and each name comes back from a power loss in a state it had since the last successful sync of the directory; the order of blocks on a disk is not modelled.
- ProgressCrash.CreatedWorld: a creation that fails is rolled back by the acceptance transaction, which is not part of this model.
- Recovery.CommitmentStates: types, modes, owners and symbolic links are one `safe` or `private` flag, and parsing a terminal is one flag of its file; the power is not lost between steps except in what `durable` says.
- RecoverySweep.LocalState.SweepDirectory: both sweeps share one method, and the count of removed entries, which is only logged, is dropped.
- RecoveryRuns.StartupDecides: recovery of interrupted acceptances (`src/runtime.rs`) and the upload spool run before the sweeps and are not part of this model.
- Jks.NormalizeJks: reading and replacing the file (`docker/scripts/normalize_jks.py:123-170`) are left out; the password is its UTF-16 encoding, or absent when it has none.
- Framing.ReadOpenedEventSnapshot: the contract owner is its interface: a refusal latches, and what it fails on, refuses or finds complete are arbitrary functions of the calls it has had; the record contract itself is not part of this model.
- Framing.ReadEventSnapshot: the physical replay is an arbitrary predicate of a length and a digest.
- Settlement.Agent.Settle: futures are their outcomes; their own work is left out.
- Publication.PublicationIsOrderly: the transaction is modelled on values, as the list of its states; writing the draft, and what startup checks before it resumes one, are left out.
- StartGate.GateOpensInOrder: the broker is its serialization alone, that removal returns after creation, and cancellers are the fence rule and the two passes of shutdown.
- RawMarker.MarkerReadBack: paths are their displayed text; that a path with a line feed, or one too long, is not read back is stated for the codec alone, since no session has such a path.
- Endings.FinishRun: each step of the ending is a flag of what it returned; sidecar contents, counters and messages are left out.
- Catalog.BuildCatalog: releases are values under their names, so that aliasing of one release object between lists is not modelled; lock states come parsed, and the two catalogs share one loop.
- Retention.CollectHost: what runs and what is kept whole are inputs, `Retention.KeptWhole` being what is kept; the check of identity tags only refuses, and is left out.
- Retention.Evaluate: evidence is a set of tokens and the time of its newest unresolved record; extracting them from files is left out.
- Retention.SeparateCatalogs: that service and backend archives share no hash is a premise.
- Retention.Machine.Delete: removing an image is one step, although Docker removes its tags one by one.
- Snapshot.TreeSnapshot.Walk: children come sorted, and a name occurs once in a directory.
- Bundle.ResultDirectory.CreateBundle: what `tar` writes is not modelled, only whether it succeeded. A session path that is not UTF-8 would leave the partial file behind, as the branch at `src/bundle.rs:114` does; the paths of sessions are ASCII (`RawMarker.SessionRootIsPlain`), so that the branch is never taken.
- HTTP handlers, configuration, Docker inspection, reports and `compaction-analysis.py` are left out: long, and one branch each.
