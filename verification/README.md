# Nexus: a verified model of its stateful core

Nexus is a defence console for an Internet provider: it watches traffic, isolates addresses,
bills subscribers, runs honeypots and lets a human approve risky actions. This project models
the parts of it that keep state and promise something over whole runs, and the three
algorithms with real mathematics in them, and proves what they promise. Run
`dafny verify dfyconfig.toml` to check it.

| files | part of the system |
|---|---|
| `AuditChain`, `AuditTampering`, `AuditTrail`, `AuditConcurrency` | the hash-chained audit log, what its verification reports, its checkpoints, and logging from several processes |
| `PendingActions`, `ApprovalInterleaving`, `ApprovalFinality`, `ApprovalAttempts`, `ApprovalGate`, `ApprovalRefinement` | the human-approval gate: concurrent calls step by step, which rows are final, how many codes can be tried, whole calls, and why the two views agree |
| `EventQueue`, `SiemInterleaving`, `SiemCursor`, `SiemRedelivery`, `SiemForwarder`, `SiemCooldown`, `SiemRefinement` | forwarding of events to a SIEM: cursor, concurrency, repeated delivery, cooldown, feedback, and why the two views agree |
| `RobustStats`, `Anomaly` | median, MAD, modified z-score, and the two-detector verdict |
| `Fingerprint` | similarity of attackers: longest common subsequence and timing |
| `Rbac`, `Inventory`, `PolicyEngine`, `ControlPlane` | roles, target inventory, policy decisions, and whole runs under governance |
| `Firewall`, `Reconcile` | isolation of addresses behind the mode belt, and repair of drift |
| `Router`, `Billing`, `BillingCycle`, `BillingRuns`, `BillingAgreement`, `BillingGovernance` | blocking of overdue subscribers over router rules, and the agreement of table and router |
| `FtpCapture`, `DeviceMonitor`, `DdosWindow` | three smaller state machines |
| `Common`, `Text`, `Reals` | options, ASCII text, sums and means |

How to read it:

- Code that changes state is a class whose methods are proved equal to a function of the old
  state (`Gate`, `Forwarder`, `Biller`, ...); the properties are then lemmas over runs of
  that function. Where calls overlap, the database statements are the atomic steps of a
  transition system and the lemmas quantify over every interleaving.
- A function that other theorems use by name has a lemma that says what it means without that
  name: which texts confirm a code (`CodeMatchesIff`), which addresses are locked (`LockedIff`),
  when a cooldown holds (`HeldBackIff`), what a verdict reports (`VerdictInPlainTerms`).
- SHA-256 is a parameter of which only the length of a digest is used. Every binding theorem
  says: the tables agree, or the tables themselves exhibit a collision or a preimage of
  GENESIS (`HashBroken`). Nothing is assumed about collisions.
- Statistics and similarities are exact reals. The clock, network outcomes, ping results,
  router answers and the address library are parameters, so the theorems hold for all of them.

Where the code does not keep what its documentation says, the model follows the code; lemmas
exhibit the difference and say exactly when the promise holds:

- `database/db.py:667-668` and `tools/audit.py:4-6` say that altering, deleting or inserting a
  row breaks the chain from there on. For any replacement of any stretch of rows
  `SpliceIsLocated` says exactly when it does. Not reported are: rewriting a hashed row together
  with its hash, stripping it of its hash, or deleting it, when no hashed row follows it;
  inserting a correctly hashed row behind the last hashed one, or a row without a hash
  anywhere; rewriting or deleting a row without a hash; and replacing a whole tail by rows
  hashed anew (`AlteredRowIsLocated`, `StrippedRowIsLocated`, `DeletedRowIsLocated`,
  `InsertedRowIsLocated`, `LegacyRowIsUnprotected`, `RecomputedTailIsUnreported`). Row ids are
  not hashed at all. A checkpoint of the tail catches what removes its row
  (`TruncationLosesAnchor`).
- `database/db.py:664-668` promises that logged events form one chain. The lock that joins the
  SELECT and the INSERT holds within one process (`database/db.py:15`); two processes that log
  at the same time break the chain (`TwoProcessesInterleave`), and it stays intact exactly when
  no INSERT falls between the two statements of another process
  (`ConcurrentLoggingIsIntactIff`).
- The joined payload does not determine the columns when a column other than `detail` holds a
  separator (`RecordIsAmbiguous`, exact condition in `RecordDeterminesFieldsIff`).
- `tools/asset_registry.py:146` says reserved addresses are never valid targets. The private
  test comes first, so 240.0.0.1 is an authorized target (`ReservedTargetIsAuthorized`, exact
  conditions in `ReservedIsLockedIff` and `ReservedTargetIsAuthorizedIff`).
- `tools/fingerprint.py:88` promises scores between 0 and 1. Two histories recorded while the
  clock was set back score 1.75 (`ScoreCanExceedOne`); `RawScoreIsInRangeIff` is the exact
  condition, and chronological hits always meet it.
- `api/server.py:61-76` takes any text as the role of a token, and `core/rbac.py:127` maps an
  unknown one to the default, which is the administrator in the stock configuration. Such a
  principal reaches real mode through the mode tool and through the REST route
  (`UnknownRoleReachesRealMode`); exactly those whose role resolves to the administrator's do
  (`DoorsReachRealIff`). The lab-safety theorem therefore asks for known roles.
- `tools/risk.py:198-201` promises that a few wrong codes end an action. Overlapping calls
  compare before any of them counts: with `p` calls at once four plus `p` wrong codes can be
  tried, and never more (`WrongCodesAreBounded`, `WrongCodesBoundIsReached`).
- The final label of an approved action can be overwritten by an overlapping cancel
  (`CancelRelabelsExecutedAction`). A resolved row is final exactly when no call in progress
  holds a write that would change it (`RowIsFinalIff`).
- A slow SIEM forwarder moves the cursor back (`CursorCanMoveBack`): exactly when another one has
  written since it read the cursor, and last wrote beyond its batch (`StepMovesBackIff`); never
  while calls do not overlap (`CursorIsMonotone`). An accepted batch whose confirmation is lost
  is sent again (`UnconfirmedBatchIsSentTwice`, exactly when: `DeliveredOnceIff`). Still nothing
  is lost.
- `tools/siem.py:12-14` says that a successful send logs nothing, so that sending does not feed
  itself. The control plane through which it passes audits every send twice, so a queue that
  holds something never drains (`QueueNeverDrains`), and a send shrinks it exactly when its
  batch exceeds two events (`SendShrinksQueueIff`).
- `tools/anomaly.py:66-69` says the robust detector resists poisoning. It does for as long as
  the MAD is not 0, and a minority that repeats a frequent value can bring it there
  (`MinorityCanZeroMad`). `MadIsZeroIff`, `CanZeroMadIff` and `DetectionIsUnconditionalIff` say
  exactly when, the latter two in terms of the clean samples alone.
- Table and router disagree once subscribers share an address or are registered again: a block
  or unblock of one of two subscribers behind one address breaks the agreement, and so does
  registering a blocked subscriber, whose status `database/db.py:2231-2233` keeps, under another
  address (`SharedAddressBreaksAgreement`, `MovingABlockedSubscriber`). `TableAndRouterAgree`
  gives the exact condition on the steps of a run; removing or moving a blocked subscriber also
  orphans its rule (`TableAndRouterCorrespond`).
- The sliding window assumes a clock that never goes back. On one that does it keeps what is
  stale (`BackwardClockKeepsStale`) or has forgotten what is recent
  (`BackwardClockForgetsTooEarly`); `WindowIsRecentPastIff` is the exact condition over runs.
- Removing an offline device leaves its ticket open (`RemovedKeepsInvIff`); outages mirror the
  history exactly when no device is removed while it is offline (`OutagesMirrorHistory`).

## Model

| member | source | states |
|---|---|---|
| AuditChain.TipOfIntact | tools/audit.py:45-71 | after walking an intact table the expected previous hash is GENESIS or the digest of the last payload, and one payload was hashed per verified row |
| AuditChain.IntactIff | tools/audit.py:52-73 | a table is intact exactly when every hashed row names the hash of the hashed row before it, 64 zeros for the first, and carries the digest of that hash and its own five columns joined by bars |
| AuditChain.CountIsCardinality | tools/audit.py:56-73 | the counter of verified rows is the number of rows with a hash |
| AuditChain.PayloadIsUnambiguous | database/db.py:658-661 | equal payloads link to the same previous hash and carry the same record |
| AuditChain.SameTipSamePayloads | tools/audit.py:52-73 | two intact tables with the same final hash hashed the same payloads, or exhibit a collision or a GENESIS preimage |
| AuditChain.ChainBinding | tools/audit.py:52-73 | two intact tables that agree on the hash of some row hashed the same payloads up to it, in number and order, short of a broken hash |
| AuditChain.SplitIsUnambiguous | database/db.py:660 | a joined text can be split uniquely once the number of separators before the cut is known |
| AuditChain.RecordDeterminesFieldsIff | database/db.py:658-661 | two rows with the same joined record have the same columns exactly when their separators are distributed alike; a missing and an empty address stay identified |
| AuditChain.RecordIsAmbiguous | database/db.py:660 | without that condition two different rows share one record |
| AuditChain.SeparatorFreeRecords | database/db.py:658-661 | columns without separators outside `detail` are determined by the record |
| AuditChain.PayloadsDetermineFields | database/db.py:658-661 | intact tables with equal payloads and separator-free columns agree column by column, row by row |
| AuditChain.LoggingKeepsIntactIff | database/db.py:672-682 | one more `log_event` keeps an intact chain intact exactly when the last row is hashed, the table is empty, or the chain's tip is GENESIS |
| AuditChain.LoggedInPlainTerms | database/db.py:658-683 | one `log_event` stores the given columns as they are, the hash of the row before it (64 zeros if that has none), and the digest of that hash and these columns |
| AuditChain.LoggingRunStaysIntact | database/db.py:664-683 | any number of `log_event` calls on a legacy prefix leaves an intact chain with exactly that many more verified rows |
| AuditTampering.BreakIsUnique | tools/audit.py:65-71 | the walk can stop at one row only, and then the chain is not intact |
| AuditTampering.IntactOrBreaks | tools/audit.py:52-73 | every table is intact or has a first offending row |
| AuditChain.LastHashedRow | tools/audit.py:112-117 | the last element of the filtered rows is the table's last hashed row |
| AuditTampering.SameTipsSameWalk | tools/audit.py:52-73 | from positions with the same expected hash on, equal rows are walked alike |
| AuditTampering.OtherTipIsReported | tools/audit.py:64-71 | from positions with different expected hashes on, equal rows are reported at the first hashed one, and not at all without one |
| AuditTampering.SpliceIsLocated | tools/audit.py:52-73 | replacing any stretch of an intact table by any rows is reported inside the stretch, at the next hashed row behind it, or not at all, with the exact condition of each |
| AuditTampering.AlteredRowIsLocated | tools/audit.py:52-73 | rewriting any row in any columns, hash columns and NULL included: a row that does not check is reported right there, one that checks and moves the tip at the next hashed row, and otherwise nothing is reported; keeping a hash takes a payload with the same digest |
| AuditTampering.StrippedRowIsLocated | tools/audit.py:56-60 | stripping a hashed row of its hash is reported at the next hashed row exactly when there is one, short of a broken hash, and never otherwise |
| AuditTampering.LegacyRowIsUnprotected | tools/audit.py:56-60 | rewriting a row without a hash is never reported |
| AuditTampering.InsertedRowIsLocated | tools/audit.py:52-73 | an inserted row is reported right there when it does not check, at the next hashed row when it checks and moves the tip, and never when it carries no hash or no hashed row follows; one that checks without moving the tip exhibits a broken hash |
| AuditTampering.RecomputedTailIsUnreported | tools/audit.py:8-10 | replacing a whole tail by any rows hashed anew is never reported by the walk |
| AuditTampering.AlteredPayloadIsReportedIff | tools/audit.py:64-71 | rewriting only the hashed columns is reported at that row exactly when the digest of the new payload differs |
| AuditTampering.DeletedRowIsLocated | tools/audit.py:52-73 | deleting a hashed row that is not the last is reported at the next hashed row, short of a broken hash; any other deletion is never reported |
| AuditTampering.RepeatedTip | tools/audit.py:64-73 | a hashed row that does not move the tip exhibits a collision or a GENESIS preimage |
| AuditChain.SeenMeansAnchored | tools/audit.py:79 | the dictionary lookup succeeds exactly when some row still carries the anchored id and hash |
| AuditTampering.CheckpointBinding | tools/audit.py:75-79 | an intact table that carries a checkpoint taken from another intact table contains everything that table had hashed, in the same order, short of a broken hash |
| AuditTampering.AnchorSurvivesAppending | tools/audit.py:79 | appending never loses an anchor |
| AuditTampering.TruncationLosesAnchor | tools/audit.py:75-101 | cutting a tail with the anchored row leaves an intact chain without the anchor, which is therefore reported |
| AuditTrail.Trail.LogEvent | database/db.py:664-683 | appends one row with the five given columns, linked to the last hash, or to GENESIS when the last row has none, and hashed over that link and its columns |
| AuditTrail.Trail.VerifyChain | tools/audit.py:45-101 | intact chains get exact verified and legacy counts and are truncated exactly when the latest checkpoint is missing; otherwise exactly the first offending row is reported, with the counts before it |
| AuditTrail.Trail.CreateCheckpoint | tools/audit.py:104-124 | writes a checkpoint that names the last hashed row exactly when there is one, and keeps the earlier ones |
| AuditConcurrency.LateInsertBreaks | database/db.py:672-682 | linking to what was the tip before some hashed rows came in breaks the chain, or exhibits a broken hash |
| AuditConcurrency.InsertedIds | database/db.py:678-682 | in every interleaving each INSERT takes the next id and nothing else does |
| AuditConcurrency.ConcurrentLoggingIsIntactIff | database/db.py:670-683 | over every interleaving of the two statements by several processes the chain is intact exactly when no INSERT falls between the SELECT and the INSERT of another, short of a broken hash |
| AuditConcurrency.TwoProcessesInterleave | database/db.py:670-683 | such an interleaving of two processes |
| PendingActions.CodeMatchesIff | tools/risk.py:192 | a text confirms a code exactly when it is not empty and is the code, each letter in either case, between white space |
| PendingActions.PlainCodeMatchesIff | tools/risk.py:153-192 | for a code in its stored form, lower case without white space: pre + mid + post, with pre and post blank and mid the code with some letters in upper case |
| ApprovalInterleaving.StepStaysInCall | tools/risk.py:174-322 | a step of a confirm or cancel touches no row but its own and leads to a step of the same call or its return; one that lost its claim to another returns |
| ApprovalInterleaving.TableEvolves | database/db.py:1427-1433 | no statement of any call changes a request's tool, arguments, code or deadline, or makes an action pending again |
| ApprovalInterleaving.StepKeepsClaims | tools/risk.py:234-247 | every step keeps each claim in the hands of one call, unspent until that call runs the function |
| ApprovalInterleaving.RunKeepsInv | tools/risk.py:174-322 | the invariant of table, calls and executions holds in every interleaving |
| ApprovalInterleaving.RunEvolves | database/db.py:1427-1433 | over any stretch of any interleaving the request is fixed and leaving pending is irreversible, although updates are unconditional |
| ApprovalInterleaving.RunClaimsWereOpen | tools/risk.py:234-240 | every claim was made at a moment of the run when the row was pending and unexpired |
| ApprovalInterleaving.AtMostOnceExecution | tools/risk.py:174-280 | in every interleaving each action runs at most once, with its stored tool and arguments, after a text that spells its code and an open claim |
| ApprovalInterleaving.ExecutedLabelMeansRun | tools/risk.py:264-279 | in every interleaving 'executada' and 'falhou' are only ever written for an action whose function ran |
| ApprovalInterleaving.CancelRelabelsExecutedAction | tools/risk.py:283-289 | an interleaving in which an executed action ends as 'cancelada' |
| ApprovalFinality.SettledForever | tools/risk.py:174-322 | once no call in progress holds a write to a resolved row, it keeps every column under every continuation |
| ApprovalFinality.HeldWriteHappens | tools/risk.py:174-322 | a call that holds a write which would change the row has a continuation that makes it |
| ApprovalFinality.RowIsFinalIff | database/db.py:1427-1433 | in every interleaving a resolved row is final exactly when no call in progress holds a write that would change it |
| ApprovalAttempts.RunAccounts | database/db.py:1413-1424 | in every interleaving the wrong codes compared are the failed attempts plus the calls that have not counted theirs, and a pending row exceeds four attempts only by calls about to lock it |
| ApprovalAttempts.WrongCodesAreBounded | tools/risk.py:194-222 | with at most p confirm calls in progress at once, at most four plus p wrong codes are compared in the whole run |
| ApprovalAttempts.WrongCodesBoundIsReached | tools/risk.py:194-222 | for every p there is such a run that compares exactly that many |
| ApprovalGate.Gate.RegisterAction | tools/risk.py:42-44 | the name becomes executable, nothing else changes |
| ApprovalGate.Gate.RequestConfirmation | tools/risk.py:135-171 | a blocked request creates nothing; otherwise one pending row with the given code and deadline |
| ApprovalGate.Gate.ConfirmAndExecute | tools/risk.py:174-280 | reply and new state in each of the eight outcomes, from the statement sequence |
| ApprovalGate.Gate.Cancel | tools/risk.py:283-291 | only a pending action is cancelled |
| ApprovalGate.Gate.SweepExpired | tools/risk.py:294-322 | exactly the overdue pending rows expire, each listed once |
| ApprovalGate.ConfirmInPlainTerms | tools/risk.py:174-280 | a confirmation runs the function, once and with the stored arguments, exactly when the row is pending, the text spells the code, the deadline lies ahead and the tool is registered; a wrong text only adds a failed attempt, and the fifth locks |
| ApprovalGate.ReplyInPlainTerms | tools/risk.py:174-280 | and the reply names which of these happened |
| ApprovalGate.ApplyKeepsInv | tools/risk.py:174-322 | each whole call keeps: pending rows have fewer than five wrong codes, a row is locked exactly at five, nothing stays claimed, labels match the runs |
| ApprovalGate.SequentialLifecycle | tools/risk.py:174-322 | that invariant over every run of whole calls, and resolved rows never change again |
| ApprovalGate.LabelsTellTheTruth | tools/risk.py:264-280 | after any run, 'executada' holds exactly when the function returned, 'falhou' exactly when it raised, and a locked action never ran |
| ApprovalGate.WrongCodesLockOut | tools/risk.py:194-222 | a series of wrong codes runs nothing and locks the action exactly when the fifth is among them, whatever follows |
| ApprovalRefinement.ConfirmIsItsSteps | tools/risk.py:174-280 | a whole confirm call is its atomic steps run alone: same table, same executions |
| ApprovalRefinement.CancelIsItsSteps | tools/risk.py:283-291 | the same for cancel |
| ApprovalRefinement.SweepIsItsSteps | tools/risk.py:294-322 | the same for the sweep, in whatever order the rows are listed |
| ApprovalRefinement.RunIsAnInterleaving | tools/risk.py:135-322 | every run of whole calls is an interleaving with the same table and executions |
| ApprovalRefinement.WholeCallsExecuteAtMostOnce | tools/risk.py:174-280 | so over every run of whole calls each action runs at most once, with its stored tool and arguments, after a text that spells its code and before its deadline |
| EventQueue.AfterIsSuffix | database/db.py:696-705 | the rows after a cursor are a suffix of the log |
| EventQueue.BatchIsSlice | database/db.py:696-705 | a batch is the slice of at most limit rows, in id order, from the first one after the cursor |
| EventQueue.BatchIsAnInterval | database/db.py:696-705 | a batch is exactly the rows between the cursor and the batch's last id, and is full unless it takes every row after the cursor |
| EventQueue.BatchThenRest | database/db.py:696-722 | moving the cursor to a batch's end removes exactly that batch from the queue |
| SiemInterleaving.StepKeepsInv | tools/siem.py:183-210 | no step of any forwarder or logger uncovers an event below a cursor that is stored, read or about to be written |
| SiemInterleaving.NoEventIsLost | tools/siem.py:183-210 | in every interleaving of forwarders and loggers, every event up to the stored cursor was in a batch the destination took |
| SiemInterleaving.CursorCanMoveBack | tools/siem.py:209 | an interleaving in which the stored cursor decreases |
| SiemInterleaving.UnconfirmedBatchIsSentTwice | tools/siem.py:201-205 | an interleaving in which a batch taken without confirmation is sent again |
| SiemCursor.StepMovesBackIff | tools/siem.py:183-209 | in every interleaving a step lowers the cursor exactly when it stores the end of a batch, another forwarder has stored one since the cursor was read for it, and the last one stored lies beyond |
| SiemCursor.CursorIsMonotone | tools/siem.py:183-209 | however many forwarders there are and however deliveries end, the cursor never moves back while their calls do not overlap |
| SiemRedelivery.SingleCursorIsMonotone | tools/siem.py:183-210 | with one forwarder the stored cursor never moves back, however deliveries end |
| SiemRedelivery.DeliveredOnceIff | tools/siem.py:183-210 | with one forwarder what the destination took is free of duplicates, and a prefix of the log, exactly when no delivery was accepted after one whose confirmation was lost |
| SiemRedelivery.AcceptedIsPrefixOfLog | tools/siem.py:183-210 | with one forwarder and no lost confirmation, what the destination took is a duplicate-free prefix of the log |
| SiemForwarder.Forwarder.LogEvent | database/db.py:664-683 | one more event in the queue |
| SiemForwarder.Forwarder.DoSend | tools/siem.py:200-210 | the cursor moves to the batch's end only on confirmation; a refusal or network error keeps it and adds an audit event |
| SiemForwarder.Forwarder.ForwardNewEvents | tools/siem.py:163-247 | reply and whole new state in each of the nine outcomes, audit events of the control plane included |
| SiemForwarder.QueueAccounting | tools/siem.py:183-247 | a call with a backlog changes it by 0 in cooldown, +1 when denied or dry-run, 2 minus the batch when accepted, +3 when refused, +2 on an unforeseen failure |
| SiemForwarder.FeedbackNeverDrains | tools/siem.py:183-247 | a call that sends the whole backlog leaves exactly its own two audit events |
| SiemForwarder.SendShrinksQueueIff | tools/siem.py:209-223 | a confirmed send shrinks the queue exactly when its batch exceeds the two events it adds |
| SiemForwarder.QueueNeverDrains | tools/siem.py:163-247 | over every run of calls and foreign events a queue that holds something never drains |
| SiemForwarder.AttemptsAreSpaced | tools/siem.py:144-160 | under a constant refusal and identity, successive audited attempts are at least a cooldown apart, on any clock |
| SiemForwarder.CooldownBoundsAttempts | tools/siem.py:144-194 | n audited attempts span at least n-1 cooldowns: a window of T seconds holds at most T/cooldown + 1 |
| SiemCooldown.HeldBackIff | tools/siem.py:144-160 | an enabled call with something to send is held back exactly when the stored decision is a DENY or DRY_RUN for the same mode, actor and role, and the clock is before its instant plus the cooldown |
| SiemCooldown.OtherReplies | tools/siem.py:163-247 | otherwise it reports the decision or how the delivery ended, and a call without work says why and changes nothing |
| SiemCooldown.CallInPlainTerms | tools/siem.py:163-247 | the audit events of a call get the next ids; the destination has taken the batch exactly when an allowed call delivered it, confirmed or not; the cursor moves, to the batch's last id, exactly on confirmation |
| SiemCooldown.AttemptIff | tools/siem.py:183-194 | a call is an attempt exactly when it has something to send and is not held back, and exactly when it leaves audit events |
| SiemCooldown.RecordIsLastAttempt | tools/siem.py:226-238 | over every run the refusal on record is that of the last attempt, and none is on record after an allowed one |
| SiemCooldown.HeldBackByLastAttempt | tools/siem.py:144-238 | told from the run alone: a call is held back exactly when the last attempt was refused under the same mode, actor and role less than a cooldown before |
| SiemCooldown.CooldownEnds | tools/siem.py:144-160 | over every run a refusal wears off: a call with something to send is an attempt once every earlier one was allowed, lies a cooldown back, or was made under another mode, actor or role |
| SiemRefinement.CallIsItsSteps | tools/siem.py:163-247 | a whole call is its atomic steps run alone: same log, cursor and accepted events |
| SiemRefinement.RunIsAnInterleaving | tools/siem.py:163-247 | every run of whole calls and foreign events is an interleaving with one forwarder |
| SiemRefinement.CursorIsCovered | tools/siem.py:183-210 | over every run of whole calls the destination has taken every event up to the cursor |
| RobustStats.SortedSorts | tools/robust_stats.py:38-39 | the order statistics behind the median: sorted, and every property holds equally often |
| RobustStats.CountPermutation | tools/robust_stats.py:33-40 | how often a property holds does not depend on the order of the samples |
| RobustStats.MedianIsMiddle | tools/robust_stats.py:38 | the median is the mean of the two middle samples of any ascending arrangement, which are one for an odd number |
| RobustStats.MadIsMedianDistance | tools/robust_stats.py:39-40 | the MAD is the median of the distances from the median |
| RobustStats.ScoreInScaledMads | tools/robust_stats.py:43-53 | the robust score times the MAD is 0.6745 times the distance from the median, and 0 when the MAD is |
| RobustStats.MajorityBoundsMedian | tools/robust_stats.py:33-40 | an interval that holds more than half of the samples holds the median |
| RobustStats.MajorityBoundsMad | tools/robust_stats.py:33-40 | and the median deviation from any center in it is at most its length |
| RobustStats.PoisoningBound | tools/robust_stats.py:33-40 | with strictly fewer injected than clean samples, in any order, the median stays in the clean range and the MAD is at most that range |
| RobustStats.BreakdownAtHalf | tools/robust_stats.py:33-40 | as many injected as clean samples move the median past any goal |
| RobustStats.MedianStaysIff | tools/robust_stats.py:33-40 | every injection of m samples leaves the median in the clean range exactly when m is smaller than the number of clean samples |
| RobustStats.OneSampleMovesMean | tools/anomaly.py:52 | one injected sample moves the mean to any value |
| RobustStats.MinorityCanZeroMad | tools/robust_stats.py:51-52 | a minority can bring the MAD to 0, where the robust score says nothing |
| RobustStats.MadIsZeroIff | tools/robust_stats.py:38-40 | the MAD is 0 exactly when more than half of the samples are equal to the median |
| RobustStats.CanZeroMadIff | tools/robust_stats.py:38-52 | m injected samples can bring the MAD to 0 exactly when some value occurs more than (clean - m)/2 times in the clean ones |
| Anomaly.MadIsNonNegative | tools/robust_stats.py:39 | the MAD is never negative |
| Anomaly.VerdictInPlainTerms | tools/anomaly.py:46-106 | the whole verdict: none below five samples; the classic detector reports totals at least threshold deviations above the mean, or any that differs from it when there is no deviation; the robust one those whose scaled distance above the median reaches threshold MADs; an anomaly is either report, suspected poisoning a robust one alone |
| Anomaly.StdevFromSums | tools/anomaly.py:53 | the deviation by sums: n (n - 1) times its square is n times the sum of squares less the square of the sum |
| Anomaly.ClassicCoversZeroMad | tools/anomaly.py:82-94 | eight samples of 10 and one of 16: mean 32/3, deviation 2, MAD 0; a total of 100 is reported by the classic detector alone |
| Anomaly.RobustReportsIff | tools/anomaly.py:88-91 | exactly which totals the robust detector reports: beyond the median by threshold scaled MADs, and none at a positive threshold when the MAD is 0 |
| Anomaly.PoisonedBaselineStillReports | tools/anomaly.py:46-106 | with a non-zero MAD every total beyond the clean maximum by threshold scaled clean ranges is reported, whatever minority was injected |
| Anomaly.DetectionIsUnconditionalIff | tools/anomaly.py:88-91 | m injected samples, fewer than the clean ones, can never suppress the robust detector beyond that bound exactly when no clean value occurs more than (clean - m)/2 times |
| Anomaly.PoisonedBaselineAlwaysReports | tools/anomaly.py:46-106 | under that condition on the clean samples every such total is reported as an anomaly, whatever was injected |
| Anomaly.ConstantBaselineReportsIff | tools/anomaly.py:82-94 | on a constant baseline exactly the totals that differ from it are reported |
| Fingerprint.LcsIsAttained | tools/fingerprint.py:55-69 | the table's value is attained by a common subsequence |
| Fingerprint.LcsIsOptimal | tools/fingerprint.py:55-69 | no common subsequence is longer |
| Fingerprint.LcsIsSymmetric | tools/fingerprint.py:60-68 | the optimum is symmetric |
| Fingerprint.LcsIsFullIff | tools/fingerprint.py:60-69 | the optimum reaches the longer length exactly for equal sequences |
| Fingerprint.PortSimilarityIsASimilarity | tools/fingerprint.py:55-69 | symmetric, in [0, 1], and 1 exactly for equal non-empty sequences |
| Fingerprint.PortSimilarityIsShare | tools/fingerprint.py:55-69 | the similarity times the longer length is the length of any longest common subsequence |
| Fingerprint.PortSequenceSimilarity | tools/fingerprint.py:55-69 | the in-place table computes the optimum over the longer length |
| Fingerprint.TimingInPlainTerms | tools/fingerprint.py:72-84 | without intervals on either side the score is 0.5; equal averages score 1; otherwise the score falls in proportion to their distance, to 0 at 0.4 of the larger one, and grows for two negative ones |
| Fingerprint.IntervalsStep | tools/fingerprint.py:46-51 | one more hit adds the time since the hit before, when both have a timestamp |
| Fingerprint.TimingSimilarityRange | tools/fingerprint.py:72-84 | symmetric and non-negative, and at most 1 exactly when the averages are not two different negative numbers |
| Fingerprint.RawScoreIsInRangeIff | tools/fingerprint.py:72-92 | a score before rounding is never negative, and at most 1 exactly unless both averages are different negative numbers too far apart for how different the ports are |
| Fingerprint.EqualPortsScoreIff | tools/fingerprint.py:72-92 | for equal port sequences it is at most 1 exactly unless both averages are different negative numbers |
| Fingerprint.ScoreCanExceedOne | tools/fingerprint.py:87-92 | two histories of three hits, recorded while the clock was set back, that score 1.75 |
| Fingerprint.ChronologicalIntervals | tools/fingerprint.py:48-51 | chronological hits have non-negative intervals |
| Fingerprint.ScoreIsASimilarity | tools/fingerprint.py:87-92 | scores are symmetric, and in [0, 1] for chronological hits |
| Fingerprint.MatchIff | tools/fingerprint.py:87-116 | who matches, from the hits alone: another address, at least three hits each, and a score at the threshold that weighs the ports, in hit order, seven to three against the timing |
| Fingerprint.CandidatesAreMatches | tools/fingerprint.py:106-115 | the loop collects exactly the other addresses with enough hits and a score at the threshold |
| Fingerprint.ByScoreSorts | tools/fingerprint.py:116 | the result is the same matches, best score first |
| Fingerprint.ByScoreIsStable | tools/fingerprint.py:116 | equal scores keep the order in which they were found |
| Fingerprint.FindSimilarAttackers | tools/fingerprint.py:95-116 | returns exactly the similar addresses of the window, once per occurrence, best first |
| Fingerprint.MatchingIsSymmetric | tools/fingerprint.py:95-116 | being reported, and the score, is a symmetric relation |
| Rbac.RoleResolution | core/rbac.py:120-127 | a role text resolves to itself up to case and white space when it is one of the six, else to the configured default, else to the administrator |
| Rbac.GrantedIff | core/rbac.py:43-142 | for every role, exactly the permissions it is granted, over all permission texts |
| Rbac.OnlyAdminSetsMode | core/rbac.py:43-142 | the mode permission is granted to the administrator role and, by no wildcard or prefix, to no other |
| Rbac.UnknownRoleIsDefault | core/rbac.py:120-127 | an unknown role has exactly the rights of the configured default role |
| Inventory.FindMatches | tools/asset_registry.py:100-121 | returns, in table order, the enabled assets that cover the target, are valid now and allow the action |
| Inventory.MatchesIff | tools/asset_registry.py:100-121 | there is a match exactly when some asset covers, is valid and allows |
| Inventory.MatchInPlainTerms | tools/asset_registry.py:76-121 | an asset authorizes exactly when it is enabled, names the target by id, address, host or block, is within its inclusive validity, and lists the action |
| Inventory.ScopeAllowsIff | tools/asset_registry.py:92-97 | a scope lists an action exactly when, stripped, it is empty or a star, or one of its comma-separated parts, stripped, is the action or a star |
| Inventory.LockedIff | tools/asset_registry.py:44-57 | which targets the locks cover, from the tables and the library alone: addresses in a block registered as critical, loopback and link-local ones, and reserved, multicast and unspecified ones that are not private |
| Inventory.CheckTargetIff | tools/asset_registry.py:124-168 | hard-denied exactly when the action changes state and a lock covers the target; matched with the first asset that authorizes it; authorized exactly without a target, or unlocked and matched or in a permissive inventory |
| Inventory.ReservedIsLockedIff | tools/asset_registry.py:44-57 | which reserved, multicast and unspecified addresses the lock covers: those the library does not also call private |
| Inventory.ReservedTargetIsAuthorizedIff | tools/asset_registry.py:124-168 | such an address is an authorized target of a state-changing action, in a permissive inventory, exactly when it is also private, not loopback or link-local, and not critical |
| Inventory.ReservedTargetIsAuthorized | tools/asset_registry.py:53-57 | 240.0.0.1, which the library calls reserved and private, is authorized |
| PolicyEngine.PrecheckAgrees | core/policy_engine.py:240-353 | ALLOW and REQUIRE_APPROVAL imply a precheck of ALLOW, DRY_RUN_ONLY implies DRY_RUN_ONLY, what the precheck denies the evaluation denies, and the evaluation alone denies for exactly three reasons: capability, engagement reference, strict inventory |
| PolicyEngine.ModeInPlainTerms | core/operating_mode.py:19-24 | the stored mode if valid, else the configured one if valid, else lab |
| PolicyEngine.PrecheckIff | core/policy_engine.py:319-353 | the precheck denies exactly where the identity may not act, or a state change targets an address in a critical block, a loopback or link-local one, or a reserved one that is not private; otherwise only the mode holds a change back |
| PolicyEngine.CriticalTargetIsDenied | tools/infrastructure.py:44-56 | a state-changing request for an address in a block registered as critical is denied, whatever the identity, mode and inventory |
| PolicyEngine.NotDeniedIff | core/policy_engine.py:253-316 | exactly what a request needs so as not to be denied, down to a covering asset; then a state change outside real mode is a dry run, and otherwise high risk or the mark asks for approval |
| PolicyEngine.TighteningOnlyDenies | core/policy_engine.py:240-316 | more critical blocks, strict inventory or fewer capabilities can only move a decision to DENY |
| PolicyEngine.MoreAssetsNeverDeny | core/policy_engine.py:269-293 | authorizing more assets never changes a decision that was not DENY |
| PolicyEngine.EnvironmentOverridesStoredMode | core/policy_engine.py:244 | a request's environment, when present, decides DRY_RUN_ONLY in place of the stored mode |
| PolicyEngine.StockCatalogIsGoverned | core/policy_engine.py:49-203 | in the shipped catalogue the mode change needs its permission, and reserved actions change state and never wait for approval |
| PolicyEngine.ReservedActions | core/policy_engine.py:193-202 | four actions are reserved, each for its own service principal, and no other |
| PolicyEngine.CatalogLines | core/policy_engine.py:49-203 | every action of the shipped catalogue by treatment (reads, immediate, waits for approval, generates), risk, permission and capability; an unlisted one is immediate for any role |
| ControlPlane.ContextIsRestored | core/control_plane.py:63-72 | whatever runs, nests or raises, the identity afterwards is the identity before |
| ControlPlane.CodeRunsInOrder | core/control_plane.py:63-72 | code runs in order, and nothing after a statement that raises |
| ControlPlane.DirectCallIff | tools/firewall.py:56-111 | a direct call changes both sets by its address exactly when it is valid, the mode real and the backend successful, and raises exactly when it is invalid |
| ControlPlane.ModeWriteIff | core/operating_mode.py:27-32 | writing a mode stores it, normalized, and puts it in force, or raises and changes nothing when it is none of the three |
| ControlPlane.BlockRequestIff | core/control_plane.py:102-201 | a request to block one address is executed at once under ALLOW, queued under its name where approval is required, and otherwise without effect |
| ControlPlane.ApprovalRunsBlock | tools/risk.py:241-280 | approving it later runs it under the approver without asking the policy again; only the mode belt still counts |
| ControlPlane.BackendChangesOnlyInRealMode | tools/firewall.py:56-111 | in every run the backend's set is the replay of a log of writes, each made while the stored mode was real |
| ControlPlane.AllowlistedActionsNeedTheirPrincipal | core/policy_engine.py:214-260 | in every run, approvals included, a reserved action executes only under its own principal taken from the context |
| ControlPlane.ModeRequestIsDenied | agents/nexus_agent.py:2040-2041 | the mode tool denies every known role but the administrator |
| ControlPlane.LabRunNeverTouchesFirewall | core/control_plane.py:63-201 | a run outside real mode without an administrator, with known identities and the mode written only through its two doors, never changes the backend |
| ControlPlane.ModeRequestReachesRealIff | core/control_plane.py:75-99 | a request for real mode takes effect exactly when its role (named, else the context's, else the default) resolves to the administrator's |
| ControlPlane.DoorsReachRealIff | agents/nexus_agent.py:2028-2041 | a principal reaches real mode through the mode tool, and through the REST route, exactly when its role resolves to the administrator's |
| ControlPlane.UnknownRoleReachesRealMode | api/server.py:61-88 | under a default of administrator a principal with a role that is not in the table reaches real mode through the tool and through the route |
| Firewall.Firewall.BlockIp | tools/firewall.py:82-95 | both sets gain the address exactly when it is valid, the mode is real and the backend succeeds; otherwise nothing changes |
| Firewall.Firewall.UnblockIp | tools/firewall.py:98-111 | the inverse, under the same conditions |
| Firewall.PrimitivesInPlainTerms | tools/firewall.py:56-111 | backend and record change together, by this one address, exactly when it is valid, the mode real and the backend successful |
| Reconcile.Reconciler.Reapply | tools/reconcile.py:32-55 | succeeds exactly when the policy allows and the firewall confirms, and only then adds the address |
| Reconcile.Reconciler.CheckAndReconcile | tools/reconcile.py:58-86 | missing and extra are the two differences; reapplied and errors partition missing; the backend grows by exactly the reapplied; an unreadable backend changes nothing |
| Reconcile.ReappliedIff | tools/reconcile.py:32-55 | in real mode, under the service and with a healthy backend, a missing address is reapplied exactly when the policy does not deny it |
| Reconcile.PassConverges | tools/reconcile.py:58-86 | after one such pass only denied addresses are missing, extras are untouched, and further passes change nothing |
| Reconcile.OthersOnlyReport | tools/reconcile.py:39-43 | under any other identity nothing is reapplied |
| Reconcile.LabOnlyReports | tools/reconcile.py:32-46 | outside real mode nothing is reapplied, whoever asks |
| Router.TagIsInjective | tools/mikrotik.py:32-35 | different addresses have different tags |
| Router.TaggedOfUntagged | tools/mikrotik.py:224-232 | removing one tag leaves none of it and all others |
| Router.RemoveTagged | tools/mikrotik.py:224-232 | removing by identifier what a filter selected removes exactly the tagged rules |
| Router.Router.BlockSubscriberIp | tools/mikrotik.py:190-214 | one rule, tagged for the address and dropping it, is added exactly when the router answers and the tag is not there yet |
| Router.Router.UnblockSubscriberIp | tools/mikrotik.py:217-236 | every rule with the tag is gone, the others keep their order |
| Router.BlockAddsRuleFor | tools/mikrotik.py:196-210 | blocking an address without a tagged rule adds exactly one, which drops that address; otherwise none |
| Router.UnblockKeepsOthers | tools/mikrotik.py:221-232 | unblocking keeps the rules without the tag, in order, and no other |
| Billing.QueryMembers | database/db.py:2300-2322 | the two queries return exactly the active subscribers overdue for at least the minimum of days, and the blocked ones that are no longer overdue |
| Billing.SucceedsIff | tools/billing.py:50-62 | an operation goes through exactly when the policy allows it, the router answers and, for a block, the address is valid, not loopback and in no critical block |
| Billing.CriticalSubscriberStays | tools/billing.py:59-60 | a block of a subscriber in a critical block fails and changes nothing, whatever the policy says |
| Billing.BlockInPlainTerms | tools/billing.py:149-193 | a block that goes through marks the subscriber's rows blocked and adds one rule that drops its address, unless a tagged one exists |
| Billing.UnblockInPlainTerms | tools/billing.py:196-231 | an unblock that goes through marks them active and removes exactly the tagged rules |
| Billing.Biller.BlockSubscriber | tools/billing.py:149-193 | status and rule change together, exactly when the address is safe, the policy allows and the router answers |
| Billing.Biller.UnblockSubscriber | tools/billing.py:196-231 | the same for the unblock, without the safety test |
| Billing.Biller.RunBillingCycle | tools/billing.py:265-328 | capped, preview or completed; a completed cycle blocks and reactivates in order and reports each target once |
| BillingRuns.ProtectedAddressesGetNoRule | tools/billing.py:50-62 | over every run a rule tagged for an address drops that address, and every rule billing added drops a valid address that is neither loopback nor in a block registered as critical |
| BillingRuns.TaggedIsDropped | tools/mikrotik.py:196-210 | from a router without rules, over every run, an address has a tagged rule exactly when some rule drops it |
| BillingAgreement.BlockAgreesIff | tools/billing.py:149-193 | a block that goes through keeps every row in agreement with the router exactly when the row is blocked already or nobody else is behind its address |
| BillingAgreement.UnblockAgreesIff | tools/billing.py:196-231 | an unblock that goes through does exactly when the row is active already or nobody else is behind its address |
| BillingAgreement.RegistrationAgreesIff | database/db.py:2228-2246 | a registration does exactly when the router's rules for the address are those of the status the subscriber keeps |
| BillingAgreement.MovingABlockedSubscriber | database/db.py:2231-2246 | registering a blocked subscriber under an address without a rule never does |
| BillingAgreement.SharedAddressBreaksAgreement | tools/mikrotik.py:196-204 | nor does blocking one of two active subscribers behind one address |
| BillingAgreement.RemovalAgrees | database/db.py:2249-2251 | a removal always does |
| BillingAgreement.BlockEachCounts | tools/billing.py:302-305 | the rules for an address after the blocking loop: one more exactly when there was none and a target behind it goes through |
| BillingAgreement.UnblockEachCounts | tools/billing.py:307-310 | after the reactivation loop: none exactly when a target behind it goes through, else as before |
| BillingAgreement.CycleAgreesIff | tools/billing.py:265-328 | a cycle that runs keeps every row in agreement exactly when subscribers behind one address are delinquent together and paid up together, as far as operations on it go through |
| BillingAgreement.TableAndRouterAgree | tools/billing.py:149-328 | throughout a run of blocks, unblocks, invoice changes, registrations, removals and cycles a subscriber is blocked exactly when one rule carries its tag, if and only if every step meets its condition |
| BillingAgreement.OnlyRegistrationsMatter | tools/billing.py:149-328 | as long as nobody shares an address the condition of every step but a registration holds |
| BillingAgreement.DistinctAddressesAgree | tools/billing.py:149-328 | from distinct addresses on, table and router agree over every run without registrations |
| BillingAgreement.RemovalOrphansIff | database/db.py:2249-2251 | a removal leaves no tagged rule without a blocked subscriber exactly when the subscriber is not blocked or not alone behind its address |
| BillingAgreement.RegistrationOrphansIff | database/db.py:2228-2246 | a registration leaves none exactly when the subscriber is not blocked, does not move, or is not alone behind its old address |
| BillingAgreement.TableAndRouterCorrespond | tools/billing.py:149-328 | throughout a run blocked subscribers and tagged rules correspond in both directions, if and only if every step meets both conditions |
| BillingCycle.CycleEffect | tools/billing.py:280-310 | a capped cycle or a preview changes nothing; any other changes exactly the statuses of the targets that go through |
| BillingCycle.OutcomesPartition | tools/billing.py:302-310 | successes and failures partition the targets |
| BillingCycle.CompletedCycleReport | tools/billing.py:280-310 | at most the cap is blocked, blocking and reactivation concern different subscribers, and the reported ids are those that became blocked |
| BillingCycle.SecondCycleChangesNothing | tools/billing.py:265-328 | repeating a cycle with the same invoices, policy and answers changes no status and no rule |
| BillingCycle.NothingGoesThrough | tools/billing.py:302-310 | targets that do not go through leave table and router alone |
| BillingGovernance.StockCatalogKnowsBilling | core/policy_engine.py:74-75 | the shipped catalogue has the two billing actions with their permissions |
| BillingGovernance.DecisionIff | tools/billing.py:170-183 | billing touches the router exactly in real mode, with the operation's permission for the active identity's role (the service role only where nobody acts) and an authorized target; nothing waits for approval |
| BillingGovernance.LabCycleChangesNothing | tools/billing.py:170-183 | outside real mode a whole cycle changes no subscriber and no rule |
| FtpCapture.HandleFtp | tools/honeypot.py:184-216 | the loop's capture, chunk by chunk, is what the line-by-line scan of the received bytes captures |
| FtpCapture.CaptureIsScan | tools/honeypot.py:196-216 | stopping at the password, with a buffer kept between chunks, loses and adds nothing against the scan |
| FtpCapture.ScanFindsFirstUserThenPass | tools/honeypot.py:202-216 | the scan captures the first USER line and the first PASS line after it, and nothing else |
| FtpCapture.ArgumentIff | tools/honeypot.py:180-181 | which lines carry a command and what is captured: the command in any case, white space, and then everything from the first other byte to the end of the line |
| FtpCapture.LinesAreCutAtLf | tools/honeypot.py:198-200 | the stream is cut at each LF, CRs at the ends stripped, and an unfinished line is none |
| FtpCapture.LoginIsCaptured | tools/honeypot.py:196-216 | a client that sends USER and PASS is captured, whatever the two arguments and however it goes on |
| FtpCapture.PacketisationDoesNotMatter | tools/honeypot.py:185-216 | the loop takes the same credentials from two splits of one stream into non-empty chunks |
| DeviceMonitor.Monitor.CheckAllDevices | tools/device_monitor.py:54-90 | the new statuses and tickets after a pass, and exactly its transitions |
| DeviceMonitor.PassInPlainTerms | tools/device_monitor.py:54-90 | after a pass every enabled device is online if it answered and offline if not, and the transitions are one DOWN per device that stopped answering and one UP per offline device that answers again, in order |
| DeviceMonitor.AddedKeepsInv | database/db.py:2352-2368 | registering or re-registering a device keeps its status, ticket and history consistent |
| DeviceMonitor.RemovedKeepsInvIff | database/db.py:2371-2373 | a removal keeps tickets and reports in step exactly when the device is not offline |
| DeviceMonitor.OutagesMirrorHistory | tools/device_monitor.py:54-90 | throughout a run of registrations, removals and passes an offline device has exactly one open ticket and any other none, DOWN and UP reports strictly alternate, and there is one ticket per DOWN, if and only if no device is removed while it is offline |
| DdosWindow.KeysAreCounted | tools/network_monitor.py:86-87 | the counter's keys are exactly the addresses seen in the window, each once |
| DdosWindow.CountIsCardinality | tools/network_monitor.py:86 | the counter counts the observations of an address in the window |
| DdosWindow.DdosDetector.constructor | tools/network_monitor.py:71-74 | an empty window |
| DdosWindow.DdosDetector.Sample | tools/network_monitor.py:76-87 | the window after one sample, and exactly the addresses at or above the threshold, each once |
| DdosWindow.WindowIsRecentPast | tools/network_monitor.py:76-90 | on a clock that never goes back the window is exactly the past observations still inside it, in order |
| DdosWindow.WindowIsSuffix | tools/network_monitor.py:76-84 | on any clock the window is what the past holds from some position on |
| DdosWindow.WindowIsRecentPastIff | tools/network_monitor.py:76-84 | over any run on any clock the window is exactly the past observations inside it if and only if nothing kept is stale and nothing forgotten is recent |
| DdosWindow.DropOldIsRecentIff | tools/network_monitor.py:82-84 | one loop of pops leaves exactly the observations inside the window if and only if nothing stale stands behind something recent |
| DdosWindow.BackwardClockKeepsStale | tools/network_monitor.py:82-84 | on one that does, an observation outlives its window |
| DdosWindow.BackwardClockForgetsTooEarly | tools/network_monitor.py:82-84 | on a clock that jumps ahead and back, an observation inside the window has been forgotten |
| DdosWindow.ClassifyThreats | tools/policy.py:13-33 | exactly the addresses over the threshold are returned, split by severity into two disjoint lists |

## Left out

- AuditTrail.Trail.LogEvent: `detail` and `action_taken` are text, so a NULL in them is not modelled.
- AuditTampering.CheckpointBinding: binds payloads and their order, not row ids, because ids are not hashed.
- AuditChain.LoggingRunStaysIntact: one process; several are the subject of AuditConcurrency.
- AuditTrail.Trail.CreateCheckpoint: signing of events and the reply text are left out.
- ApprovalGate.Gate.RequestConfirmation: the verdict of the governance precheck is a parameter; JSON encoding of arguments, code generation and code delivery are not modelled.
- ApprovalInterleaving.AtMostOnceExecution: codes are ASCII; `compare_digest` raising on other text is not modelled.
- SiemForwarder.Forwarder.ForwardNewEvents: the policy decision, identity and mode are parameters, one instant stands for the three clock readings of a call, and a negative batch limit is not modelled.
- SiemRedelivery.DeliveredOnceIff: a destination that keeps part of a batch is not modelled.
- Anomaly.PoisonedBaselineStillReports: exact reals; the deviation is an argument constrained to be the root of the sample variance, and the rounding of reported scores is left out.
- ApprovalFinality.RowIsFinalIff: the time of resolution is not a column of the model.
- Fingerprint.ScoreIsASimilarity: the rounding to three decimals is a parameter, any monotone function that fixes 0 and 1; parsing of timestamps is left out.
- Inventory.CheckTargetIff: what Python's `ipaddress` says of an address, block membership and the order of timestamps are parameters.
- ControlPlane.LabRunNeverTouchesFirewall: code is a value that an interpreter runs, because methods cannot take code as an argument; dry-run previews, audit texts and redaction are left out, and an approved action may be approved again, which the theorems allow.
- Firewall.Firewall.BlockIp: the undeterminable mode of an unreadable database is covered as a mode that is not real; rewriting of addresses to a canonical text, CIDR and rate-limit primitives are left out.
- Firewall.Firewall.UnblockIp: the same.
- Reconcile.Reconciler.CheckAndReconcile: missing addresses are visited in any order, and the error texts are left out.
- Router.Router.BlockSubscriberIp: a router call that fails is assumed to have had no effect.
- Router.Router.UnblockSubscriberIp: the same; a removal loop that fails midway is not modelled.
- Billing.Biller.BlockSubscriber: the history table and audit events are left out.
- Billing.Biller.UnblockSubscriber: the same.
- Billing.Biller.RunBillingCycle: targets come in table order, not by days overdue; an unreadable billing source, the history table and notifications are left out.
- FtpCapture.HandleFtp: a socket error or timeout, which discards the capture, and the decoding of captured bytes are left out.
- DeviceMonitor.Monitor.CheckAllDevices: devices are visited in registration order; audit events and notifications are left out.
- The telnet capture loop: it drops its buffer after the user name, so chunk independence does not hold there.
- HMAC signing of audited events, report texts, dashboards, the language-model agent, HTTP routes, notifications and threat feeds: input and output only.
- The playbook level cap and the capability toggles of single tools: settled by reading one branch.
