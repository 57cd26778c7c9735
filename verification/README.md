# foundation-reference, verified

foundation-reference holds a replica of another service's decisions. organization-control, the authority, grants memberships and publishes
what it did; this consumer hears about it through a channel that repeats, reorders and gives up, keeps a projection, and answers enforcement
checks from it. This project models that replica and the procedure that says when it may be trusted, and proves what the repository's
comments and design promise about both, over whole runs and all inputs.

`dafny verify dfyconfig.toml` checks everything.

## How the model is laid out

- **The projection.** `Model` holds the entities and the database: two tables, one watermark for each consumer, and the inbox.
  `Effects` is the SQL as guarded map updates, and the theory of what any sequence of them amounts to. `Transactions` says what one event
  or one snapshot page does, as the statements it stands for; `Deliveries` proves what that is in the columns of the event and the page
  themselves: what is accepted, exactly, and what is written. `Queries` says what each read means. `Projectors` is the program's own form: a
  `Projector` over a shared `Pool`, whose methods take the branches the Go methods take and are proved against those two. Each call carries a
  `Fate`: it commits, rolls back, or commits and loses its answer.
- **Runs of it.** `Runs` plays any schedule of attempts by any consumers of one database. `Integrity`, `Marks`, `Intake`, `Tenancy` and
  `Convergence` prove what holds of every run. `Bootstrap` has the page loop as a method, and a state machine of any number of loops,
  crashes and deliveries. `Restores` is the authority's tenant through restores.
- **Trust.** `Frontier` is the producer's answer and its cache, `Enforcer` the decision, `Serving` a protected route from end to end, and
  `Staleness` runs producer, dispatcher, projection, cache and clocks together, and `Exposure` holds the runs that show where its bound ends. `Reconciliation` is report, comparison and sweep; `Schedule`
  is when they run.

Two ideas carry most of the proofs. Every input is reduced to the *claims* it makes (this membership has this state at this version), and the
tables after any run are shown to be the pointwise maximum of the claims made, a description in which order, repetition and grouping do not
appear. And every environment the program does not control is a named predicate: `Staleness.Commits`, `TellsTheTruth`, `MayResolve`;
`Convergence.IsHistory`, `ComesFrom`; `Reconciliation.Compare`; `Runs.IdsDetermine`.

The inbox guard (its body is not in this repository) is taken to answer "first" and record the pair of event and consumer exactly when the
pair was not recorded, inside the transaction, as `internal/projection/projection.go:29-33` relies on.

## Where the code and its own text disagree

The model follows the code. In each case a lemma has the run, and where a condition decides another has it exactly.

- A receipt is said to assert that this event was applied (`internal/httpapi/routes.go:189-198`). A superseded event is registered, so its
  redelivery is reported a duplicate, with a receipt: `Intake.ARedeliveredSupersededEventIsReceipted`. Over every run, some delivery of an
  event was applied if and only if its state was new to the tables its first registration met: `Intake.AReceiptMeansAppliedExactlyWhen`. What
  any 202 asserts is `Intake.ReceiptMeansReflected`.
- A restore's bump is said to put republished withdrawals above anything held (`internal/projection/projection.go:400-403`). Over every
  lineage it does if and only if the restore loses no earlier restore and fewer security transitions than the bump:
  `Restores.EveryRestoreSupersedesExactlyWhen`. Restoring one backup twice publishes one pair twice:
  `Restores.TheSameBackupTwiceSupersedesNothing`.
- One statement is said to keep rows out of a report that its mark does not cover (`internal/projection/report.go:30-33`). Rows can still
  escape it after a half-seeded later snapshot, or when another consumer shares the database: `Marks.AHalfSeededSnapshotEscapesTheMark`,
  `Marks.ASharedDatabaseEscapesTheMark`. The mark covers every row if and only if no row that stands was put by a page, or by another
  consumer's event, at a mark above it: `Marks.ReportMarkCoversExactlyWhen`.
- A failed run is said not to stretch the gap between recorded runs past the interval (`internal/reconcile/reconcile.go:21-25`). Each
  failure stretches it by one check, and flooring ages to seconds by what it hides of a check: `Schedule.TheGapIsBounded`, and
  `Schedule.FailuresStretchTheGap` has a schedule that reaches the bound for every interval, check and number of failures. Every schedule
  keeps the interval if and only if none fails and the check is whole seconds, or a nanosecond over: `Schedule.KeptExactlyWhen`.
- A cached answer is said to be younger than the interval (`internal/frontier/client.go:133-134`). It was when the call was stamped, before
  the lock (`internal/frontier/client.go:140-143`); a caller that waits for the lock takes it however old it is by then:
  `Exposure.ACachedAnswerOutlivesTheInterval`. Every cached answer is younger than the interval when taken if and only if the lock is had in
  the instant of the stamp: `Exposure.CachedAnswersAreYoungExactlyWhen`. The bounds are stated by the stamp.
- `ReadAt` is described as when the answer was received (`internal/frontier/client.go:59-60`). The code stamps it before the request is sent,
  and the staleness bound needs that: `Staleness.TheTruthVouches`, `Exposure.AgeingFromReceiptBreaksTheBound`.
- A watermark row is said to appear when a consumer bootstraps (`internal/projection/schema.sql:148-150`). The first event heard makes one
  too, without a snapshot mark (`internal/projection/projection.go:295-301`): `Marks.AnEventAloneBootstrapsNothing`.
- Applying is said to be safe any number of times (`internal/projection/projection.go:303-304`). An acknowledged event has no inbox record;
  hearing it again moves the instant its consumer was last heard from, and nothing else: `Runs.AcknowledgedTwice`. Hearing an event again
  changes nothing if and only if it is one that is projected or that instant is the same: `Runs.HeardAgainChangesNothingExactlyWhen`.

## Model

| member | source | states |
|---|---|---|
| Projectors.Projector.Apply | internal/projection/projection.go:305-387 | one delivery: the answer, and the whole new database, are those of the event's statements under the inbox guard; a rollback leaves everything, a lost answer leaves what committed |
| Projectors.Projector.ApplyTenant | internal/projection/projection.go:418-465 | the same for a tenant event, ordered by the lexicographic pair |
| Projectors.Projector.AcknowledgeEvent | internal/projection/projection.go:469-481 | an event received and not acted on moves the watermark alone, and leaves no inbox record |
| Projectors.Projector.FindingsComplete | internal/projection/repair.go:63-85 | the first pass over a sweep accepts exactly the sweeps in which every finding can be applied, a removal only as an extra |
| Projectors.Projector.Repair | internal/projection/repair.go:99-113 | the second pass applies each finding's statement in order |
| Projectors.Projector.ApplyRepair | internal/projection/repair.go:52-124 | one sweep, all findings or none, in one guarded transaction; one for another consumer is acknowledged |
| Projectors.Projector.Seed | internal/projection/projection.go:667-702 | one snapshot page: refused whole at its first bad row, by the method's checks or the tables', otherwise seeded at the mark, which the last page alone records |
| Projectors.Projector.Lookup | internal/projection/projection.go:520-581 | answers the record of an active row that no other active row of the pair is newer than when the pair holds, and otherwise the refusal its standing names |
| Projectors.Projector.Position | internal/projection/projection.go:587-607 | the consumer's marks and the instant it bootstrapped, or nothing when it has no row; and no row and a row without a snapshot mark both say that no snapshot completed |
| Projectors.Projector.Age | internal/projection/projection.go:720-751 | the time since the watermark moved, floored at zero, and an error until a snapshot completed |
| Projectors.Projector.LookupMembership | internal/projection/projection.go:763-809 | the row of one membership, whatever its status |
| Projectors.Projector.Report | internal/projection/report.go:44-81 | walking the joined lines gives the active memberships once each, ascending, under the higher of the two marks, or an error before a snapshot |
| Queries.StandingOf | internal/projection/projection.go:510-519 | of the five standings a pair can have, each stated by what must be true of the tables, this is one that holds |
| Queries.StandingIsUnique | internal/projection/projection.go:510-519 | the five standings are exclusive, so with the previous row they partition every state |
| Queries.WhatALookupAnswers | internal/projection/projection.go:510-581 | each of the four refusals, and a success, exactly when the tables hold what names it: an inactive tenant, an active membership without its tenant, rows none of which is active, no row, an active membership of an active tenant |
| Queries.WhatALookupReturns | internal/projection/projection.go:488-561 | the record answered is an active row of the pair, column by column, and no active row of the pair was applied at a higher mark |
| Queries.TheReportIsMarked | internal/projection/report.go:40-66 | a report exists exactly once a snapshot completed, names its consumer, and its mark is one of the two recorded and at least both |
| Effects.FoldRow | internal/projection/projection.go:282-293 | over any statements that do not remove it, a row keeps its identity columns, never goes back, and changes only to what some statement proposed above its version |
| Effects.FoldReflects | internal/projection/projection.go:282-293 | whatever is asserted and not removed is reflected at the end, wherever in the order it stood |
| Effects.FoldSettles | internal/projection/projection.go:278-281 | any order of coherent statements leaves the pointwise maximum, by version or pair, of what they assert |
| Effects.SettledIsUnique | internal/projection/projection.go:278-281 | there is only one such maximum, in identity, status and versions |
| Transactions.JudgedEffects | internal/projection/schema.sql:39-52 | an event that passes the method's own checks never proposes a row the tables refuse |
| Transactions.ClaimsAreTimeless | internal/projection/projection.go:303-304 | what an event says, and whether it is refused, does not depend on when it is heard |
| Deliveries.AcceptedExactlyWhen | internal/projection/projection.go:305-334 | which events are accepted, exactly, by their type, position and payload; an unlisted type is unknown and any other refusal malformed; which are acknowledged, and which are duplicates |
| Deliveries.RefusedOrRepeatedWritesNothing | internal/projection/projection.go:338-345 | what is refused, and what is registered and heard again, changes nothing at all |
| Deliveries.AcknowledgingWrites | internal/projection/projection.go:467-481 | what is not for this consumer moves its watermark alone |
| Deliveries.AMembershipEventWrites | internal/projection/projection.go:347-361 | a membership event heard for the first time leaves its row by its own columns and its type's state, its inbox record and its position, and nothing else |
| Deliveries.ATenantEventWrites | internal/projection/projection.go:442-451 | a tenant event heard for the first time leaves the whole of its row where none stood or a lower pair did, its record and its position, and nothing else |
| Deliveries.OneFindingWrites | internal/projection/repair.go:99-112 | a finding without a state removes its row; one with a state upserts that state's own columns; no other row changes |
| Deliveries.ASweepWrites | internal/projection/repair.go:87-118 | a sweep heard for the first time is its findings one after another, in order, with its record and its position |
| Deliveries.APageIsAcceptedExactlyWhen | internal/projection/projection.go:667-692 | which pages are accepted, exactly; one that is not fails with the error of its first wrong row, the table's for a status or a version it refuses |
| Deliveries.APageOfOneWrites | internal/projection/projection.go:678-692 | a page of one row leaves the membership by that row's own columns at the mark, and its tenant's state beside it |
| Deliveries.APageIsItsRows | internal/projection/projection.go:673-694 | a page of several rows is the pages of one row each, in order |
| Deliveries.APageRecordsTheMark | internal/projection/projection.go:625-631 | the last page, and no other, records its mark and instant for this consumer, keeps its applied mark, and leaves everybody else's watermark |
| Deliveries.APageSeedsEachMembership | internal/projection/projection.go:678-683 | what a page leaves of each membership one row of it names, by that row's columns |
| Runs.ExactlyOnce | internal/projection/projection.go:337-387 | every schedule of attempts, rollbacks, lost answers and redeliveries leaves the database that each distinct event, applied once in order of first commit with no guard, would leave; and the inbox holds exactly those |
| Runs.FirstCommitsAreDistinct | internal/projection/projection.go:29-33 | those first commits were accepted in the run, were not registered before it, and none registers what another does |
| Runs.AcknowledgedTwice | internal/projection/projection.go:469-481 | hearing an acknowledged event again changes only the instant its consumer was last heard from |
| Runs.HeardAgainChangesNothingExactlyWhen | internal/projection/projection.go:303-304 | hearing an accepted event again changes nothing if and only if it is one that is projected, or its consumer was last heard from at that very instant |
| Runs.DuplicatesSayNothingNew | internal/projection/projection.go:342-345 | discarding duplicates discards nothing that was said |
| Runs.RunSettles | internal/projection/projection.go:269-281 | from nothing, the tables after any run whose claims are coherent are the pointwise maximum of everything it said |
| Runs.OrderIsIrrelevant | internal/projection/projection.go:303-304 | two runs that say the same coherent things, in any order, as often as they like, by events, pages or sweeps, agree on identity, status and versions |
| Runs.SameInputsSameState | internal/projection/projection.go:303-304 | two delivery sequences over the same set of coherent inputs reach the same identity, status and versions |
| Runs.OnlyAnExtraRemoves | internal/projection/repair.go:67-77 | over every run, a removal came from an extra finding without a state, in a sweep addressed to the consumer that applied it |
| Runs.RowsOnlyAdvance | internal/projection/projection.go:286-293 | over every run that does not remove it, a row keeps its identity, its version never falls, and any change was said by an input above the version it held |
| Runs.WithdrawalSticks | internal/projection/projection.go:286-293 | a suspended or revoked row that no sweep removes is not active again unless some input said active at a higher version |
| Runs.WhatIsSaidIsReflected | internal/projection/projection.go:286-293 | everything a run says is reflected at its end, unless its row is removed |
| Integrity.EveryRowMeetsTheSchema | internal/projection/schema.sql:39-52 | every reachable membership row meets the table's checks, names its membership, tenant and principal, and never names the nil workspace; every tenant row meets its own |
| Integrity.AcceptedStatementsAreSound | internal/projection/schema.sql:104-112 | whichever of the four ways a statement came, once accepted it proposes nothing the checks refuse |
| Marks.WatermarkIsTheMaximum | internal/projection/projection.go:297-301 | over any run of any consumers the applied mark never falls, bounds the position of everything that took effect, and is one of those positions |
| Marks.WatermarkIsTheMaximumDelivered | internal/projection/projection.go:356-361 | from nothing, it is the maximum position of all accepted deliveries, duplicates included, and zero before the first |
| Marks.AgeIsSinceLastHeard | internal/projection/projection.go:704-751 | the age is the time since the last input that took effect; duplicates, rollbacks, pages that do not end a snapshot and other consumers' events leave it |
| Marks.AnEventAloneBootstrapsNothing | internal/projection/projection.go:295-301 | the first event a consumer hears makes its watermark row, at that position, without a snapshot mark, so it has no age |
| Marks.ThePositionIsWhatARunRecorded | internal/projection/projection.go:583-631 | a consumer's position, over every run: the mark and instant of the last snapshot it completed, and the highest position it accepted a delivery at |
| Marks.ReportListsActive | internal/projection/report.go:34-38 | a report lists exactly the active memberships, each once, at the versions held |
| Marks.ReportMarkCoversExactlyWhen | internal/projection/report.go:30-81 | over every run of any consumers, the report's mark is at least that of every row if and only if no row that stands was put by a page, or by another consumer's event, at a mark above it |
| Marks.ReportMarkCoversEveryRow | internal/projection/report.go:30-81 | with one consumer, no half-seeded snapshot and no falling snapshot mark, the report lists the active memberships and its mark is at least that of every row |
| Marks.AHalfSeededSnapshotEscapesTheMark | internal/projection/report.go:30-33 | a run in which a row of an unfinished snapshot is reported under a lower mark |
| Marks.ASharedDatabaseEscapesTheMark | internal/projection/report.go:34-38 | a run in which another consumer's row is reported under a lower mark |
| Intake.Handle | internal/httpapi/routes.go:157-225 | the handler: a body that is no envelope is refused before anything is applied; otherwise the response and the database are those of the delivery, and the status is 400, 503 or 202 by whether the event is deliverable and how its transaction ended |
| Intake.StatusExactlyWhen | internal/httpapi/routes.go:170-217 | for every event and every fate: 400 if and only if the event is refused for what it is, 503 if and only if it is not and its transaction failed or its answer was lost, 202 otherwise; when there is a receipt; and what is counted |
| Intake.TransactionsAreAttempts | internal/projection/projection.go:29-33 | the methods' transactions are the attempts every run is made of: a rollback leaves the database, and a commit leaves the same whether its answer arrives or is lost |
| Intake.EveryAnswerIsOneOutcome | internal/httpapi/routes.go:170-224 | accepted deliveries set exactly one outcome; poison is refused alike whatever the tables and the instant and changes nothing; a receipt is an applied or a duplicate |
| Intake.AppliedMeansWritten | internal/projection/projection.go:347-381 | an applied membership event is what its row holds, column by column, with the state its type stands for, but for the identity of a row that stood before; a superseded one changed nothing and left a row as new |
| Intake.AppliedTenantMeansWritten | internal/projection/projection.go:442-459 | an applied tenant event is the whole of its row and was above the pair held; a superseded one changed nothing and left a pair as new |
| Intake.AppliedExactlyWhenNew | internal/projection/projection.go:363-370 | an event other than a sweep, heard for the first time, is applied if and only if the projection does not yet hold what it says or something newer, and superseded if and only if it does |
| Intake.AReceiptMeansAppliedExactlyWhen | internal/httpapi/routes.go:189-214 | over every run and for every event but a sweep: each later delivery is answered with a receipt, and some delivery of it was applied if and only if its state was new to the tables its first registration met |
| Intake.ReceiptMeansReflected | internal/httpapi/routes.go:189-214 | any 202 for a membership or tenant event, receipt or not, says the projection holds that state or a newer one, over every run that does not remove the row |
| Intake.ARedeliveredSupersededEventIsReceipted | internal/httpapi/routes.go:189-214 | every superseded event, redelivered, is answered with a receipt, though neither delivery changed a table |
| Intake.ASupersededEventExists | internal/projection/projection.go:363-368 | such a run: a grant overtaken by a revocation |
| Convergence.PagesAreFaithful | cmd/foundation-reference-bootstrap/main.go:16-21 | a page says only what the authority committed, at whatever instant of its history it was read |
| Convergence.SnapshotAndCatchUpConverge | cmd/foundation-reference-bootstrap/main.go:14-21 | for every history, every split into pages each read at its own instant, and every interleaving with deliveries, rollbacks and redeliveries: the projection equals the authority if and only if each last transition is in some page or delivery |
| Convergence.LookupAnswersAsTheAuthority | internal/projection/projection.go:488-581 | once converged, a lookup succeeds exactly for the pairs the authority would grant |
| Convergence.RunsAreFaithful | cmd/foundation-reference-bootstrap/main.go:16-21 | a run whose pages each come from an instant of the history and whose events say what was committed says nothing else |
| Convergence.DiscardingConvergesExactlyWhen | cmd/foundation-reference-bootstrap/main.go:17-21 | a consumer that discarded at the mark would equal the authority if and only if each last transition was in a page or in a delivery above the mark recorded when it came |
| Convergence.DiscardingAtTheMarkLosesARow | cmd/foundation-reference-bootstrap/main.go:17-21 | one history and run in which this consumer ends with the authority's state, and one that discards at the mark does not, however many events at or below the mark follow |
| Tenancy.SuspensionAndRestorationAreARoundTrip | internal/projection/projection.go:404-465 | while a tenant is suspended every principal is refused; after its restoration every lookup, of any pair, answers as if neither event had happened, whatever about other subjects was interleaved and however often either event was redelivered |
| Tenancy.RunIgnoresTheTenant | internal/projection/projection.go:684-692 | inputs about other subjects neither read nor write a tenant's row, and redeliveries of what one database has registered change nothing there: two databases that differ in that row and those records go on differing in them alone |
| Bootstrap.Load | cmd/foundation-reference-bootstrap/main.go:110-185 | the page loop: it stops only at a page that failed, one without a mark or at another mark, or the end of the answers; if they begin with a whole snapshot whose every page is applied, it succeeds there, with the mark recorded and every row of every page reflected by its own columns; and until a last page no watermark moves |
| Bootstrap.EveryReachableWorldIsSound | cmd/foundation-reference-bootstrap/main.go:118-170 | the invariant of every interleaving of loops, crashes and deliveries: what a loop has seeded is one snapshot so far and is reflected, and every recorded mark names a snapshot that completed |
| Bootstrap.NoAuthorityBeforeACompleteSnapshot | internal/projection/projection.go:695-699 | in every reachable state a recorded mark means every page of one snapshot was seeded at it, and without one there is no age and no report |
| Bootstrap.RerunningIsAsIfUninterrupted | cmd/foundation-reference-bootstrap/main.go:14-21 | seeding an interrupted snapshot's pages again, at whatever mark and with deliveries anywhere, between the pages of either run among them, reaches the identity, status and versions of a bootstrap never interrupted, whenever the claims are coherent |
| Restores.LossIsCounted | internal/projection/projection.go:400-403 | going back undoes one security version for each security transition lost and the whole bump of each restore lost, and at least as many versions |
| Restores.EveryRestoreSupersedesExactlyWhen | internal/projection/projection.go:400-403 | after any transitions and restores, the pair a restore publishes is newer than the one before it if and only if it loses no earlier restore and fewer security transitions than the bump |
| Restores.PublishedPairsRiseExactlyWhen | internal/projection/projection.go:389-403 | through any number of transitions and restores, every published pair is newer than every earlier one if and only if every restore met that condition when it was made |
| Restores.TheConsumerFollowsPublication | internal/projection/projection.go:404-465 | while every restore meets the condition: holding the j-th pair published, the consumer applies the i-th exactly when it was published later, supersedes it otherwise, and holds the later of the two after |
| Restores.VersionsAreBounded | internal/projection/projection.go:400-403 | no state exceeds the first by more than one for each transition and the bump for each restore |
| Restores.VersionsFitTheColumn | internal/projection/schema.sql:108-109 | nine billion restores, and 223 372 036 854 775 807 less the starting version in transitions, stay within bigint |
| Restores.TheSameBackupTwiceSupersedesNothing | internal/projection/projection.go:400-403 | after any restore, restoring the same backup again loses no security transition and publishes the same pair |
| Frontier.Read | internal/frontier/client.go:162-217 | an answer is accepted exactly when it is a readable 200 with an instant and a debt, is stamped with the instant before it was asked for, and carries each of the producer's facts as sent |
| Frontier.WhatOneCallAnswers | internal/frontier/client.go:133-160 | a young cached answer is answered and kept; a failed call leaves the cache and means it held nothing young; a successful one leaves what it answers; and what is not stamped now was cached and young |
| Frontier.Client.Ask | internal/frontier/client.go:139-160 | the client's call, through its two critical sections, answers and caches what one call alone should |
| Staleness.OneCallAlone | internal/frontier/client.go:139-160 | the interleaved steps of a call with nothing in between are that same call |
| Enforcer.WhatAnAllowRestsOn | internal/httpapi/enforce.go:105-149 | for every input, an allow rests on the authority's grant alone, or for LOW_RISK on an active pair, an age and an owed age inside the window and no debt; HIGH_CONFIDENTIALITY and undeclared classes never allow |
| Enforcer.StalenessIsNamed | internal/httpapi/enforce.go:305-384 | a projection is vouched for exactly when no obstacle stands, a refusal names one that does, and debt is never reported as an owed delivery |
| Enforcer.AuthorityCodesByCause | internal/httpapi/enforce.go:120-148 | each code of a class that asks the authority exactly by what the authority did; such a decision is never stale and has no age |
| Enforcer.ProjectionCodesByCause | internal/httpapi/enforce.go:151-272 | each code of a class that reads the projection exactly by its cause; a stale refusal names an obstacle that stands; when the decision is marked stale; and its age |
| Enforcer.TheTableIsConsistent | internal/httpapi/class.go:104-132 | each class's behaviour agrees with whether it asks the authority and whether it takes the deployment's window, and exactly the classes not served from the projection audit every access |
| Enforcer.ClassesDoNotInterfere | internal/httpapi/class.go:104-132 | the authority's two classes decide alike over every projection, the projection's two over every authority, and only LOW_RISK serves from the projection at all |
| Enforcer.FresherNeverRefusesMore | internal/httpapi/enforce.go:305-384 | for every pair of freshnesses, worsening any part of one can only turn an allow into a refusal |
| Enforcer.HoldingAnAnswerOnlyAgesIt | internal/httpapi/enforce.go:363-378 | the same answer under a later clock is no fresher |
| Enforcer.SettledRefusalsKeepTheirCode | internal/httpapi/enforce.go:211-265 | a refusal the tables settle keeps its code whatever the age, the producer and the window |
| Enforcer.ClearingTheDebt | internal/httpapi/enforce.go:332-361 | clearing the producer's debt serves an active bystander and never a principal the tables refuse |
| Serving.DecideNow | internal/httpapi/enforce.go:151-273 | the decision is that of the age, the pair's lookup and the producer's answer together, whichever of the reads fail |
| Serving.Protected | internal/httpapi/routes.go:239-307 | from request to status, each exactly when: 200 when the caller asks for itself in the tenant its token selects and, for LOW_RISK, the tables confer and freshness vouches, or for the authority's classes it grants; 503 when the class is undeclared or the pair could not be read; 400 and 401 for a request without a tenant or a caller; 403 otherwise |
| Serving.NoSnapshotNoService | internal/httpapi/enforce.go:154-165 | in every reachable state without a recorded snapshot both projection classes refuse as not bootstrapped, whatever is projected and however fresh |
| Serving.LowRiskDecidesAsTheAuthority | internal/httpapi/enforce.go:171-187 | converged and vouched for, LOW_RISK is allowed exactly where the authority would grant |
| Staleness.TheCacheNeverLooksFresher | internal/frontier/client.go:139-217 | over every interleaving of concurrent calls, stamp, check, reply and store all apart: a returned answer was observed at or after the instant it is aged from and reported its debt; if cached it was younger than the interval when its call was stamped, and if read it is aged from the stamp |
| Staleness.EveryPermissionIsBounded | internal/httpapi/enforce.go:151-384 | over every run of producer, dispatcher, projection, cache and clocks, the age read, freshness judged and the pair looked up in that order with anything in between: when LOW_RISK is allowed, every committed membership transition the projection lacks at the lookup, and every tenant transition not dead lettered, is at most the window old, or as old as the answer judged by, and the time from the judgement to the lookup; the producer's clock does not enter |
| Staleness.ThePermittedMembershipIsBounded | internal/httpapi/enforce.go:171-187 | of the membership the permission rests on, every committed transition above the version decided on is within the bound |
| Staleness.AnOldWithdrawalIsEnforced | internal/httpapi/enforce.go:305-384 | when what was heard comes from the authority's history, no permission rests on a membership whose last transition is a withdrawal older than the bound |
| Staleness.AnOldSuspensionIsEnforced | internal/httpapi/enforce.go:227-237 | and none is in a tenant whose last transition leaves it other than active, older than the bound and not dead lettered |
| Staleness.LaterFollows | internal/projection/projection.go:286-293 | along every run, what was sent stays sent, what is sent later is later, and what the projection has caught up with it does not lose |
| Exposure.TheBoundIsReached | internal/httpapi/enforce.go:378-383 | for every window and every pause before the lookup, a run that meets the bound exactly: LOW_RISK is allowed on a membership whose revocation has been owed for the whole window when freshness is judged |
| Exposure.ACachedAnswerOutlivesTheInterval | internal/frontier/client.go:140-146 | for every wait, a run in which a cached answer is taken that much past the interval, because the call was stamped before it waited for the lock |
| Exposure.CachedAnswersAreYoungExactlyWhen | internal/frontier/client.go:133-146 | every cached answer taken a given wait after its stamp is younger than the interval if and only if there was no wait |
| Exposure.AgeingFromObservationBreaksTheBound | internal/httpapi/enforce.go:363-378 | for every lead of the producer's clock, a run that is refused as the code ages answers, and that ageing from the producer's instant would allow past the bound |
| Exposure.AgeingFromReceiptBreaksTheBound | internal/frontier/client.go:59-62 | for every delay of an answer on its way, a run that is refused as the code ages answers, and that ageing from the receipt would allow past the bound |
| Exposure.ADeadLetteredSuspensionIsUnbounded | internal/httpapi/enforce.go:347-351 | for every age, a run in which the members of a tenant are served though its suspension that old was dead lettered, because the debt counts membership events alone |
| Staleness.InvHolds | internal/frontier/client.go:139-160 | the invariant behind both: what is missing is owed or given up on, what is registered is reflected, and every answer in hand vouches for what it does not report |
| Staleness.TheTruthVouches | internal/httpapi/enforce.go:363-378 | an answer true when it was given vouches from the instant its request was sent, so stamping early is what makes ageing sound |
| Reconciliation.SweepsAreAccepted | internal/projection/repair.go:63-85 | the comparison of any report with a well-formed authority is a sweep this consumer accepts |
| Reconciliation.FindingsAreClassified | internal/projection/repair.go:32-37 | a finding's class by its cause, and its state by the authority's own columns, none exactly for what was never granted |
| Reconciliation.SweepRepairsEachRow | internal/projection/repair.go:99-116 | delivered to whatever the tables hold by then, a sweep makes each row it names the authority's state unless already as new, removes the never granted, and leaves every other row |
| Reconciliation.ReconciliationSettlesWhatIsRepairable | internal/projection/repair.go:45-51 | one run settles exactly the repairable differences, so the next report finds nothing, and the active set is the authority's, if and only if every difference was one |
| Reconciliation.ReconciliationReachesAFixpoint | internal/projection/repair.go:45-51 | from every reachable state with no row ahead of the authority, one run leaves the authority's active set and the next finds nothing |
| Reconciliation.ALateSweepRollsNothingBack | internal/projection/repair.go:47-50 | after any newer inputs a sweep lowers no row's version, leaves rows already at the authority's version as they are, and removes only what it reported and the authority never granted |
| Schedule.Extra | internal/reconcile/reconcile.go:78-86 | the number of findings of class extra |
| Schedule.Tick | internal/reconcile/reconcile.go:219-237 | a report is sent exactly when one is due and can be made, a run counts exactly when it was sent and answered, and which error is returned otherwise |
| Schedule.TheGapIsBounded | internal/reconcile/reconcile.go:21-25 | for any checks of any replicas at most one interval of checking apart, the last recorded run is at most the declared interval old, and what flooring to seconds hides of a check (its fraction of a second less a nanosecond), and one check for each failure |
| Schedule.FailuresStretchTheGap | internal/reconcile/reconcile.go:21-25 | for every interval, every check and every number of failures, a schedule that reaches that bound, or for a check of whole seconds comes within a nanosecond of it |
| Schedule.KeptExactlyWhen | internal/reconcile/reconcile.go:21-25 | for every interval and every check, every schedule keeps the interval if and only if no due check fails and the check is whole seconds, or a nanosecond over |
| Schedule.RunsAreNeitherWithheldNorEarly | internal/reconcile/reconcile.go:172-189 | a requested or first run is never withheld, and no other is recorded while age and one check fall short of the interval |
| Schedule.NoIntervalNoSchedule | internal/reconcile/reconcile.go:178-181 | a registration that declares no interval is due only for a request or a first run |
| Schedule.APartialSecondOverruns | internal/reconcile/reconcile.go:183-187 | checks a second and a half apart stretch a gap past the interval |

## Left out

- HTTP servers, JSON, timeouts, probes, token verification and scope parsing: a request, an envelope or an answer is a value, `None` where it does not decode.
- The authority's client: its answer to one pair is granted, refused, unreachable or not configured.
- PostgreSQL's isolation: each transaction is one atomic step, and a query sees one instant. The reads a decision makes may fail; `Position`, `LookupMembership` and `Report` never do here.
- The read of the age, of the producer and of the pair are three instants in the program and in `Staleness`, and one in `Serving`.
- inbox.Guard, the dispatcher and organization-control are not part of this repository: they are the named assumptions above. An operator closes a dead letter only when what it announced is reflected; waiving one is outside the staleness bound.
- Convergence.SnapshotAndCatchUpConverge: a sweep that removes a membership the authority granted is outside `Convergence.ComesFrom`, because the program removes what an extra without a state names whatever its version, and a late event for it would then be taken as new.
- Staleness.EveryPermissionIsBounded: no bound on a tenant event in the dead letters, which nothing the producer answers counts; `Exposure.ADeadLetteredSuspensionIsUnbounded` shows there is none.
- Restores.VersionsFitTheColumn: bounds one tenant's versions; elsewhere versions, positions and durations are unbounded integers, since they are only compared, subtracted and added.
- Schedule.TheGapIsBounded: a run takes no time and is recorded at the instant of its check; the ticker's loop is the sequence of checks given.
- Floating-point ages, timestamps and UUID parsing: durations are whole nanoseconds and identifiers are opaque, the nil one apart.
- Reason strings, logging, telemetry, configuration loading, the migration and rebuild commands, and constructors' argument checks.
- The order of rows with equal marks in a lookup, and `applied_at`, `event_id` and a row's tenant security version when a page and an event tie on version: they may depend on arrival, and no convergence is claimed for them.
