# Verified model of the edu-crm server's stateful core

This project models, in Dafny, the parts of the edu-crm server (a multi-tenant
education CRM written in TypeScript) whose correctness depends on state that evolves
over many calls, and proves what those parts promise: protocols over stored rows under
interleaving, an in-place traversal of an arbitrary object graph, and a handful of
algorithms.

`dafny verify dfyconfig.toml` checks the whole project.

## How it is organised

| file | component |
|---|---|
| `Redaction.dfy` | in-place redaction of error events (`scrubObject`, `beforeSend`) |
| `FreeSlots.dfy` | first-come allocation of free campus slots, claims interleaved statement by statement |
| `UtcCalendar.dfy` | the UTC month arithmetic behind a slot's expiry |
| `RefreshTokens.dfy` | refresh-token rotation with replay detection, atomic calls and split statements |
| `CourseBalance.dfy` | the five-status lesson package on values |
| `StoredBalance.dfy` | the same package as guarded updates of stored rows, related to the values |
| `AccessRevocation.dfy` | logout blacklist and token expiry |
| `Subscription.dfy` | payments, trial sweep and the write gate |
| `TenantContext.dfy` | tenant middleware and tenant guard |
| `Idempotency.dfy` | replay of write responses, in order and overlapping |
| `Ranking.dfy` | class ranking |
| `SqlLiteral.dfy` | literals of the seed script, printed and read back |
| `Backfill.dfy` | the batched phone backfill |
| `PasswordGen.dfy` | rejection-sampled passwords |
| `GradeLadder.dfy` | the grade computed on read |
| `Common.dfy` | `Option` and `Result` |

Code that changes objects or rows in place is a class whose methods are proved against
functions of the old state; runs, interleavings and round trips are then lemmas about
those functions. A SQL statement with a `WHERE` clause is one atomic guarded step.
Instants are integers (milliseconds unless a name says seconds) and are passed in; a
service call reads the clock once. Randomness, encryption, hashing, signatures and JSON
are inputs or arbitrary functions. Redis and PostgreSQL are available.

## What the code does not do

Some promises do not hold of the code. The model follows the code, shows a run that
breaks the promise, and proves exactly when it does hold.

- One slot per parent: the check is made once, at the start of a claim, so two
  overlapping claims of one parent can both be granted (`OverlapGrantsTwo`). Without
  overlap it never happens (`OneSlotPerParent`), and a commit goes wrong exactly when the
  parent already holds a slot (`CommitKeepsSingleHolder`).
- The comments of `src/modules/auth/refresh-token.repository.ts:15` call rotation an
  atomic transaction; the service runs three separate statements. As one step a token
  rotates at most once (`RotatesAtMostOnce`). Split, it gets at most one request past the
  checks exactly when none reads its row while another request holds it
  (`UsedOnceExactly`), and after every such read both requests can rotate it
  (`OverlappingReadsBothRotate`). For the same reason a mass revocation, also that of a
  replay, leaves a subject without a live token exactly as long as no rotation that had
  read a token of the subject before finishes after it (`RevokeAllIsFinalExactly`).
- The comments of `src/common/idempotency/idempotency.interceptor.ts:17` promise protection
  against double clicks. Two overlapping requests of one key can both run the handler and
  both succeed (`OverlappingRequestsBothRun`). On any one day, no request runs beside
  another of its key or after a success exactly when none is looked up in vain while another
  is running (`ExclusiveExactly`, and `RunsOnceExactly` for handlers that succeed). The same
  comments ask for keys of 32 to 128 characters; the code accepts 8 to 128.
- The stored refund never changes the status, so the row of a fully refunded package
  differs from the value (`StoredRefundAgrees` says exactly when).
- The low-balance alert is not always raised once: it is raised once for each deduction
  that leaves the package low before its first mark (`AlertsExactly`), so calls that
  interleave can raise it twice (`InterleavedAlertsTwice`) and calls that do not cannot
  (`AlertsOnceAlone`).
- Depletion is not always final: an unguarded status write can undo it
  (`FreezeRevivesDepleted`). It is final exactly when no freeze, unfreeze or scan that read
  the package before its last lesson was taken writes afterwards
  (`DepletionIsFinalExactly`), and always for calls that do not interleave
  (`DepletedAlone`). Lessons are never oversold all the same (`NeverOversold`).
- One freeze is not always extended once: two unfreezes that overlap can both move the expiry
  (`OverlappingUnfreezesBothExtend`). It is undone, and so extended, at most once exactly
  when no unfreeze reads the package while another is between its read and its status write
  (`UnfrozenOnceExactly`).
- Ranks are competition ranks exactly for well-scored lists (`RanksRightExactly`): an
  unscored result that leads the list gets rank 0 (`UnscoredRanksZero`). They depend on the input order exactly
  when an unscored result meets one scored zero (`RanksIgnoreOrder`).
- A live token is refused for good after its logout exactly when it names both an
  identifier and an expiry: without an identifier nothing is written and it is still
  accepted, without an expiry it is accepted again after a day
  (`FinalExactlyWithExpiry`).
- Topping up a password by one to three characters throws (`ShortTopUpThrows`, `FailsExactly`).
- The read-back check of the backfill fails on a row that has both blobs and no phone
  number, which it skips without counting it (`BlobsWithoutPhoneFail`); it passes exactly on the rows that held
  nothing but values of their own phone number (`PassesExactly`).
- Re-basing a grade is neutral exactly when the base year is not ahead of the clock, or
  at the top of the ladder (`RebaseIsNeutral`).

## Model

| member | source | states |
|---|---|---|
| `Redaction.ScrubObject` | src/common/sentry/sentry.config.ts:123-132 | on any object graph, shared or cyclic, the traversal terminates and the whole heap afterwards is the old one with exactly the objects within its remaining depth over non-sensitive references redacted |
| `Redaction.ScrubKey` | src/common/sentry/sentry.config.ts:125-131 | one turn of the loop overwrites a sensitive value or scrubs one child, and nothing else |
| `Redaction.ScrubRedactsBelow` | src/common/sentry/sentry.config.ts:95-132 | afterwards every object within five steps of the root, over any references, has all its sensitive keys redacted, and no value under another key has changed |
| `Redaction.ScrubIsIdempotent` | src/common/sentry/sentry.config.ts:123-132 | a second traversal changes nothing |
| `Redaction.ScrubTouchesOnlyCleanReach` | src/common/sentry/sentry.config.ts:124-129 | an object keeps its secrets exactly when it is out of the traversal's reach (beyond the depth limit or only behind a sensitive key) or had none |
| `Redaction.RedactHeaders` | src/common/sentry/sentry.config.ts:54-66 | every header equal but for case to one of the four ends redacted, every other header and object is as it was |
| `Redaction.SensitiveExactly` | src/common/sentry/sentry.config.ts:57-127 | a key or header is sensitive exactly when it equals a listed one but for case |
| `Redaction.RedactedBelowPersists` | src/common/sentry/sentry.config.ts:69-80 | what one root's traversal achieved survives the traversals of later roots that share objects with it |
| `Redaction.BeforeSend` | src/common/sentry/sentry.config.ts:52-82 | when the hook returns, the four headers are still redacted, body, extra data and every context are redacted to depth five although they may share structure, and every value under an unlisted key is as it was |
| `UtcCalendar.FormulaCountsDays` | src/modules/db/campus-free-slot.repository.ts:129-131 | the closed day formula behind `setUTCMonth` equals the sum of Gregorian month lengths from 1970, in both directions |
| `UtcCalendar.GrantLasts` | src/modules/db/campus-free-slot.repository.ts:129-131 | a grant lasts exactly the UTC lengths of its months counted from the grant month, for every instant, day overflow included |
| `UtcCalendar.QuarterLasts` | src/modules/db/campus-free-slot.repository.ts:102-131 | the default three months are 89 to 92 days |
| `UtcCalendar.YearLasts` | src/modules/db/campus-free-slot.repository.ts:129-131 | twelve months are 366 days exactly when they contain a leap February's length, else 365 |
| `UtcCalendar.ExpiryDate` | src/modules/db/campus-free-slot.repository.ts:129-131 | the expiry has the same date of the month exactly when the target month has it, else it spills into the next month by the missing days |
| `FreeSlots.InvHolds` | src/modules/db/campus-free-slot.repository.ts:99-188 | every statement of every interleaving keeps: one lock per slot, only committed free rows locked, uncommitted rows one grant ahead, indexes unique per campus, row fields consistent |
| `FreeSlots.RaceIsNeverLost` | src/modules/db/campus-free-slot.repository.ts:133-148 | the guarded update of a locked slot never misses, so `SLOT_RACE_LOST` is unreachable |
| `FreeSlots.ExhaustedMeansFull` | src/modules/db/campus-free-slot.repository.ts:116-126 | a claim is refused as exhausted exactly when every slot of the campus is occupied or locked |
| `FreeSlots.RowStep` | src/modules/db/campus-free-slot.repository.ts:133-188 | in one step the version moves by one exactly when the committed row changes, an occupied row changes only by being freed, campus and index never change |
| `FreeSlots.VersionCountsChanges` | src/modules/db/campus-free-slot.repository.ts:139-183 | over any run the version counts exactly the committed changes of the slot |
| `FreeSlots.HolderKeepsSlot` | src/modules/db/campus-free-slot.repository.ts:153-188 | over any interleaving an occupied slot keeps its whole row until it is released or expires |
| `FreeSlots.GrantIsKept` | src/modules/db/campus-free-slot.repository.ts:129-188 | a default grant survives every interleaving without its release for 89 days of sweeps |
| `FreeSlots.SlotCountConserved` | migrations/V23__c_side_quarterly_and_free_slots.sql:71-86 | a campus gets ten slots when created and no other step changes their number |
| `FreeSlots.OneSlotPerParent` | src/modules/db/campus-free-slot.repository.ts:105-113 | if claims of one parent do not overlap, no parent ever holds two slots, whatever else interleaves |
| `FreeSlots.CommitKeepsSingleHolder` | src/modules/db/campus-free-slot.repository.ts:105-149 | a commit keeps one slot per parent exactly when its parent still holds none |
| `FreeSlots.OverlapGrantsTwo` | src/modules/db/campus-free-slot.repository.ts:104-150 | with two claimable slots, two claims of one parent that have both passed the first check can both be granted |
| `FreeSlots.ClaimRunsAlone` | src/modules/db/campus-free-slot.repository.ts:99-151 | the four statements of an uninterrupted claim compose to its one-step effect |
| `FreeSlots.ClaimOutcome` | src/modules/db/campus-free-slot.repository.ts:99-151 | an uninterrupted claim is refused exactly when the parent holds a slot or none is claimable, else it takes the claimable slot of lowest index and changes no other row |
| `FreeSlots.GrantEnds` | src/modules/db/campus-free-slot.repository.ts:129-188 | the first sweep more than 92 days after a default grant expires it |
| `FreeSlots.GrantEndsExactly` | src/modules/db/campus-free-slot.repository.ts:129-187 | a grant of any number of months is expired by exactly the sweeps after the UTC lengths of its months have passed |
| `FreeSlots.SweepExactly` | src/modules/db/campus-free-slot.repository.ts:178-187 | a sweep changes exactly the occupied rows whose recorded expiry has passed, by status and version alone |
| `FreeSlots.ReleaseExactly` | src/modules/db/campus-free-slot.repository.ts:156-173 | a release empties an occupied slot, parent and dates, changes no other row, and is refused on any other slot |
| `FreeSlots.FreedParentClaimsAgain` | src/modules/db/campus-free-slot.repository.ts:99-187 | after its slot is released or expires, a parent can at once claim one of that campus again |
| `FreeSlots.AbortUndoes` | src/modules/db/campus-free-slot.repository.ts:104-150 | an aborted claim leaves no trace: rows unchanged, its lock and only its lock given back |
| `FreeSlots.NewCampusIsOpen` | migrations/V23__c_side_quarterly_and_free_slots.sql:71-86 | the ten slots of a new campus are numbered 1 to 10, empty, and can be claimed at once |
| `FreeSlots.CampusFreeSlotRepository.Claim` | src/modules/db/campus-free-slot.repository.ts:99-151 | the claim method, statement by statement, has that effect and keeps the invariant |
| `FreeSlots.CampusFreeSlotRepository.GetCampusStats` | src/modules/db/campus-free-slot.repository.ts:70-92 | from the grouped query in any order: the three counts, and a total equal to the campus's number of slots |
| `RefreshTokens.RefreshTokenService.Rotate` | src/modules/auth/refresh-token.service.ts:159-199 | the method has the effect and outcome of the rotation function on the table |
| `RefreshTokens.RefreshTokenService.RevokeByRaw` | src/modules/auth/refresh-token.service.ts:205-211 | logout revokes a live row and is silent otherwise |
| `RefreshTokens.RefreshTokenRepository.RevokeAllBySubject` | src/modules/auth/refresh-token.repository.ts:117-131 | afterwards no token of the subject is live, only its live rows changed and only by their revocation time, and the count is the number of rows that changed |
| `RefreshTokens.RotationEffect` | src/modules/auth/refresh-token.service.ts:183-198 | a successful rotation revokes the presented row, adds a live successor of the same subject and tenant, touches no other row |
| `RefreshTokens.RunKeepsInv` | src/modules/auth/refresh-token.service.ts:110-211 | every run keeps: rows of a login have one owner, ids are unique, only the newest token of a login may be live |
| `RefreshTokens.OneLiveTokenPerLogin` | src/modules/auth/refresh-token.service.ts:110-211 | in every run a login has at most one live token, the last one issued for it |
| `RefreshTokens.RotatesAtMostOnce` | src/modules/auth/refresh-token.service.ts:159-199 | in every run each token rotates successfully at most once |
| `RefreshTokens.SessionSurvives` | src/modules/auth/refresh-token.service.ts:110-211 | a live token untouched by rotation, logout, mass revocation, replay or cleanup stays live over any run, and presenting it succeeds exactly until its expiry |
| `RefreshTokens.IssuedTokenLives` | src/modules/auth/refresh-token.service.ts:110-199 | an issued token keeps its subject and tenant and, untouched, is accepted exactly until the lifetime of its kind is over |
| `RefreshTokens.LogoutEffect` | src/modules/auth/refresh-token.service.ts:205-211 | a logout revokes a live token at that instant and touches no other row, and does nothing for others |
| `RefreshTokens.LogoutEndsSession` | src/modules/auth/refresh-token.service.ts:163-211 | after a logout the token is never rotated in any continuation, and presenting it until thirty days past its expiry is a replay |
| `RefreshTokens.CleanupExactly` | src/modules/auth/refresh-token.repository.ts:137-145 | a cleanup deletes exactly the rows that expired more than thirty days ago |
| `RefreshTokens.ForgottenIsInvalid` | src/modules/auth/refresh-token.service.ts:163-170 | a deleted token is invalid forever and presenting it changes nothing |
| `RefreshTokens.RefusedWithoutEffect` | src/modules/auth/refresh-token.service.ts:163-182 | unknown and expired tokens are refused as such and leave the table as it is |
| `RefreshTokens.RevocationIsPermanent` | src/modules/auth/refresh-token.repository.ts:104-145 | a recorded revocation is never overwritten or cleared; the row only ever disappears by a cleanup more than thirty days past its expiry |
| `RefreshTokens.ReplayRevokesSubject` | src/modules/auth/refresh-token.service.ts:172-176 | presenting a stored revoked token leaves its subject without a live token and every other row unchanged |
| `RefreshTokens.ReplayKillsSubject` | src/modules/auth/refresh-token.service.ts:236-243 | no token issued to the subject before a replay is accepted in any continuation |
| `RefreshTokens.ReuseIsDetected` | src/modules/auth/refresh-token.service.ts:159-199 | a token presented again at any point after its rotation, until thirty days past its expiry, is refused as revoked and kills its subject's tokens |
| `SplitRotation.RevocationStands` | src/modules/auth/refresh-token.repository.ts:104-145 | under every interleaving of statements, cleanups included, the first revocation time stands until the row is deleted thirty days past its expiry, and no later read of the token is accepted |
| `SplitRotation.UsedOnceExactly` | src/modules/auth/refresh-token.service.ts:159-194 | over every run of statements a token gets at most one request past the checks exactly when no accepted read of it happens while another request holds its row |
| `SplitRotation.AllButFirstOverlap` | src/modules/auth/refresh-token.service.ts:159-194 | every accepted read of a token but the first overlaps another request that holds its row |
| `SplitRotation.ReadsAccounted` | src/modules/auth/refresh-token.service.ts:159-194 | accepted reads are conserved: each ends in one finished rotation or is still held |
| `SplitRotation.RotatesOnceWithoutOverlap` | src/modules/auth/refresh-token.service.ts:159-194 | without an overlapping read no interleaving rotates a token twice |
| `SplitRotation.RotateRunsAlone` | src/modules/auth/refresh-token.service.ts:159-199 | the statements of an uninterrupted rotation compose to the one-step rotation, in every branch |
| `SplitRotation.OtherStatementsAgree` | src/modules/auth/refresh-token.repository.ts:80-145 | the statements outside a rotation do to the table what the whole calls do |
| `SplitRotation.OverlappingReadsBothRotate` | src/modules/auth/refresh-token.service.ts:184-194 | after every accepted read of a row that another request holds, both requests can finish: two rotations and two live successors |
| `SplitRotation.RevokeAllIsFinalExactly` | src/modules/auth/refresh-token.service.ts:194-243 | after a mass revocation or replay and until the next login, the subject stays without a live token exactly when no rotation that had read one of its tokens before finishes after |
| `CourseBalance.ActivateEstablishes` | src/modules/course-balance/course-balance.service.ts:61-103 | exactly well-formed requests for an active package are accepted; the new package satisfies the invariant and expires its validity after activation |
| `CourseBalance.RunConserves` | src/modules/course-balance/course-balance.service.ts:111-270 | over every run: lessons are conserved, remaining is zero exactly when depleted or refunded, refunded exactly when also nothing was used, expiry moves by frozen days alone, the alert flag is set exactly by an alert |
| `CourseBalance.WholeLife` | src/modules/course-balance/course-balance.service.ts:61-270 | from activation on: remaining is what was bought less deductions and refunds, expiry less activation is validity plus frozen days, at most one alert |
| `CourseBalance.TerminalForever` | src/modules/course-balance/course-balance.service.ts:115-268 | a depleted or refunded package refuses every deduction, refund, freeze and unfreeze and never changes again |
| `CourseBalance.SchedulableMeansDeductible` | src/modules/course-balance/course-balance.service.ts:187-213 | the check passes exactly when the next deduction succeeds and the date has not run out, each reason is given exactly in its case, two error branches are unreachable |
| `CourseBalance.RefundsWhatRemains` | src/modules/course-balance/course-balance.service.ts:149-185 | a refund is accepted exactly for one lesson up to those that remain |
| `CourseBalance.FreezeRoundTrip` | src/modules/course-balance/course-balance.service.ts:245-270 | exactly active packages freeze and exactly frozen ones unfreeze; undone, a freeze only moves the expiry by its days |
| `CourseBalance.FrozenRests` | src/modules/course-balance/course-balance.service.ts:111-270 | from a freeze until an unfreeze no deduction succeeds, no scan expires the package and its expiry stands, over every run |
| `CourseBalance.ScanExactly` | src/modules/course-balance/course-balance.service.ts:215-243 | the scan expires exactly the active packages past their date, from which no lesson is then taken in any run |
| `CourseBalance.AlertsOnce` | src/modules/course-balance/course-balance.service.ts:132-146 | the alert is raised at most once in every run |
| `CourseBalance.AlertByDeductions` | src/modules/course-balance/course-balance.service.ts:124-146 | by deductions alone it is raised exactly by the first that leaves one to five lessons |
| `StoredBalance.CoursePackageRepository.DeductOneLesson` | src/modules/db/course-package.repository.ts:179-206 | the guarded transaction takes one lesson and depletes the row at zero, or refuses and changes nothing |
| `StoredBalance.CourseBalanceService.DeductOnConsumptionInDb` | src/modules/course-balance/course-balance.service.ts:310-328 | refines the deduction on values: same refusals, same row, same alert |
| `StoredBalance.CourseBalanceService.RefundLessonsInDb` | src/modules/course-balance/course-balance.service.ts:330-338 | same refusals and counters as the refund on values, status kept |
| `StoredBalance.CourseBalanceService.FreezeInDb` | src/modules/course-balance/course-balance.service.ts:380-389 | freezes exactly stored active packages, by their status alone |
| `StoredBalance.CourseBalanceService.UnfreezeInDb` | src/modules/course-balance/course-balance.service.ts:391-403 | refines the unfreeze on values |
| `StoredBalance.CourseBalanceService.ScanExpiredInDb` | src/modules/course-balance/course-balance.service.ts:351-368 | the loop leaves every row as the scan on values does and reports exactly the rows it changed |
| `StoredBalance.StoredRefundAgrees` | src/modules/db/course-package.repository.ts:208-227 | stored and value refund leave the same row exactly when lessons remain |
| `StoredBalance.NeverOversold` | src/modules/db/course-package.repository.ts:184-227 | under every interleaving of statements used plus refunded never exceeds the total, and successes are booked once each |
| `StoredBalance.AlertsExactly` | src/modules/course-balance/course-balance.service.ts:310-328 | under every interleaving the number of alerts is exactly the number of deductions that leave one to five lessons before the first mark |
| `StoredBalance.InterleavedAlertsTwice` | src/modules/course-balance/course-balance.service.ts:315-326 | two deductions before the first mark both raise the alert |
| `StoredBalance.DepletedUntilWritten` | src/modules/db/course-package.repository.ts:229-246 | a depleted row stays depleted through a run of statements exactly when none writes another status |
| `StoredBalance.DepletionIsFinalExactly` | src/modules/course-balance/course-balance.service.ts:351-403 | under every interleaving of stored calls a package stays depleted after its last lesson exactly when no freeze, unfreeze or scan that read it before that deduction writes after it |
| `StoredBalance.FreezeRevivesDepleted` | src/modules/course-balance/course-balance.service.ts:380-389 | a freeze that read just before the last deduction overwrites the depleted status |
| `StoredBalance.EventsAreStatements` | src/modules/course-balance/course-balance.service.ts:351-403 | every interleaving of stored calls is a run of statements |
| `StoredBalance.CallRunsAlone` | src/modules/course-balance/course-balance.service.ts:310-403 | uninterrupted, the statements of each stored call compose to the call, its successes and its alert included |
| `StoredBalance.CallEventsRunAlone` | src/modules/course-balance/course-balance.service.ts:351-403 | uninterrupted, the read and the writes of a freeze, unfreeze or scan compose to the call |
| `StoredBalance.ExpiryMovesByExtensions` | src/modules/course-balance/course-balance.service.ts:391-403 | under every interleaving of statements the expiry moves by exactly the extensions executed |
| `StoredBalance.UnfrozenOnceExactly` | src/modules/course-balance/course-balance.service.ts:391-403 | one freeze is undone at most once exactly when no unfreeze reads while another is between its read and its status write |
| `StoredBalance.ExtensionsAccounted` | src/modules/course-balance/course-balance.service.ts:391-403 | each unfreeze that passes its check extends the expiry once or still has to |
| `StoredBalance.ExtendedOnceWithoutOverlap` | src/modules/course-balance/course-balance.service.ts:391-403 | without overlapping unfreezes one freeze moves the expiry at most once |
| `StoredBalance.OverlappingUnfreezesBothExtend` | src/modules/course-balance/course-balance.service.ts:391-403 | when an unfreeze reads while another has still to extend, both can extend the expiry |
| `StoredBalance.AlertsOnceAlone` | src/modules/course-balance/course-balance.service.ts:310-328 | uninterrupted stored calls raise the alert at most once |
| `StoredBalance.DepletedAlone` | src/modules/course-balance/course-balance.service.ts:310-403 | uninterrupted stored calls never bring a depleted package back |
| `StoredBalance.DeductionsAlone` | src/modules/course-balance/course-balance.service.ts:310-328 | by uninterrupted stored deductions alone the alert is raised exactly by the first that leaves one to five lessons |
| `AccessRevocation.AuthController.Logout` | src/modules/auth/auth.controller.ts:1083-1098 | the blacklist entry written, and its time to live |
| `AccessRevocation.LogoutIsFinal` | src/modules/auth/jwt.strategy.ts:46-81 | after its logout a token is refused at every later instant, across any other logouts: no gap between the floored time to live and the expiry |
| `AccessRevocation.FinalExactlyWithExpiry` | src/modules/auth/auth.controller.ts:1075-1098 | after a logout a token is refused at every later instant exactly when it had already expired or names both an identifier and an expiry |
| `AccessRevocation.AcceptedUntilExpiry` | src/modules/auth/jwt.strategy.ts:46-81 | a token that no logout names is accepted exactly until its expiry, whatever other tokens log out |
| `AccessRevocation.ForgottenAfterADay` | src/modules/auth/auth.controller.ts:1089-1094 | a logged-out token without an expiry is refused for exactly one day |
| `AccessRevocation.LogoutSparesOthers` | src/modules/auth/auth.controller.ts:1094 | other tokens are judged as before |
| `Subscription.TenantStore.WxpayCallback` | src/modules/checkout/wxpay.controller.ts:423-439 | a successful notice with a 32-character tenant id extends that tenant's subscription, others change nothing |
| `Subscription.TenantStore.ExpireOverdueTrials` | src/modules/cron/cron-jobs.service.ts:336-349 | the sweep expires exactly the overdue trials and reports exactly the tenants whose row it changed |
| `Subscription.PeriodsAddUp` | src/modules/checkout/wxpay.controller.ts:429-436 | in every run of payments and sweeps the years bought are disjoint, start no earlier than their payment and than what was paid before, and end where the subscription ends |
| `Subscription.PeriodsChain` | src/modules/checkout/wxpay.controller.ts:423-439 | each payment buys one year that starts at the payment or at the end of what was paid before, whichever is later |
| `Subscription.PaymentTouchesOne` | src/modules/checkout/wxpay.controller.ts:423-439 | a payment activates the tenant that pays, keeps its trial date, and touches no other |
| `Subscription.YearsBought` | src/modules/checkout/wxpay.controller.ts:429-436 | after n payments the subscription reaches at least n years past the first start and past the earlier end |
| `Subscription.FirstPeriod` | src/modules/checkout/wxpay.controller.ts:429-436 | the subscription reaches at least n years past the first payment |
| `Subscription.SweepIsIdempotent` | src/modules/cron/cron-jobs.service.ts:342-349 | sweeping again changes nothing; a sweep changes exactly the trials whose end has passed, by their status alone |
| `Subscription.GateExactly` | src/guards/tenant-subscription.guard.ts:54-117 | a request is refused exactly when it is a write outside the open paths by a user of an expired, archived or frozen tenant who is not of the platform |
| `Subscription.PaymentOpensGate` | src/guards/tenant-subscription.guard.ts:54-117 | after a payment no payment or sweep ever makes the gate refuse the tenant |
| `Subscription.UnpaidTrial` | src/guards/tenant-subscription.guard.ts:95-116 | an unpaid trial is refused writes exactly once some sweep found it overdue |
| `TenantContext.Use` | src/modules/auth/tenant.middleware.ts:56-142 | the middleware writes identity, tenant schema and backfilled schema as its function says, or refuses |
| `TenantContext.RequireParentDbUser` | src/modules/auth/tenant.middleware.ts:260-418 | the parent branch, with the tenant checked against the active bindings |
| `TenantContext.OneTenant` | src/guards/tenant-scope.guard.ts:49-139 | a non-platform request that passes middleware and guard names one tenant in all its identifiers: the token's for staff, an actively bound one for parents |
| `TenantContext.HandlersFindSchema` | src/modules/auth/tenant.middleware.ts:121-142 | where a tenant was resolved, body and query name its schema when the handler runs |
| `TenantContext.StaffPassesExactly` | src/guards/tenant-scope.guard.ts:67-138 | a staff request passes exactly when nothing it supplies contradicts its token |
| `TenantContext.ParentPassesExactly` | src/modules/auth/tenant.middleware.ts:298-383 | a parent's request passes exactly when the schema asked for is well formed, actively bound and not contradicted |
| `TenantContext.ParentIsAttached` | src/modules/auth/tenant.middleware.ts:295-421 | a passing parent request carries the parent, the tenant asked for and its schema |
| `TenantContext.PassesByRoute` | src/modules/auth/tenant.middleware.ts:66-142 | who gets past the middleware on each kind of route where no tenant is resolved |
| `TenantContext.IdentityByRoute` | src/modules/auth/tenant.middleware.ts:66-200 | there a request gets the identity of its token and no tenant, and nothing it sent changes |
| `TenantContext.GuardByRole` | src/guards/tenant-scope.guard.ts:49-66 | the guard refuses the unidentified and those without a tenant, and lets the platform act on any |
| `Idempotency.IdempotencyInterceptor.Intercept` | src/common/idempotency/idempotency.interceptor.ts:80-130 | lookup, replay and store around the handler |
| `Idempotency.FullKeyInjective` | src/common/idempotency/idempotency.interceptor.ts:41-108 | different users or keys never share a cache entry |
| `Idempotency.UnkeyedGoBy` | src/common/idempotency/idempotency.interceptor.ts:84-101 | reads and writes without a key go by the cache, exactly malformed keys are refused |
| `Idempotency.EntryPerUserAndKey` | src/common/idempotency/idempotency.interceptor.ts:103-108 | requests share an entry exactly when they go by the same name and have the same key |
| `Idempotency.KeptForADay` | src/common/idempotency/idempotency.interceptor.ts:43-129 | an answer is replayed exactly if its status is 200 to 299, and for exactly a day |
| `Idempotency.ReplayedExactly` | src/common/idempotency/idempotency.interceptor.ts:110-129 | a response is replayed exactly when an earlier request with that cache key ran the handler and succeeded with it less than a day before |
| `Idempotency.ReplayIsOwn` | src/common/idempotency/idempotency.interceptor.ts:107-117 | what is replayed came from the same user and key |
| `Idempotency.RunsOncePerDay` | src/common/idempotency/idempotency.interceptor.ts:110-129 | within a day of a success the handler does not run again for that user and key, whatever it would answer: every request gets the answer of that success |
| `SplitIdempotency.ExclusiveExactly` | src/common/idempotency/idempotency.interceptor.ts:110-129 | with lookups and stores interleaved and answers that may fail, at most one request of a key is running or has succeeded at every point of a day exactly when no miss overlaps a running request |
| `SplitIdempotency.SucceedsOnceWithoutOverlap` | src/common/idempotency/idempotency.interceptor.ts:110-129 | without such an overlap the handler succeeds at most once a day |
| `SplitIdempotency.AllButFirstOverlap` | src/common/idempotency/idempotency.interceptor.ts:110-129 | when handlers succeed, every run of a key but the first begins while another is running |
| `SplitIdempotency.RunsOnceExactly` | src/common/idempotency/idempotency.interceptor.ts:110-129 | when handlers succeed, the handler of a key runs at most once a day exactly when no miss overlaps a running request |
| `SplitIdempotency.OverlappingRequestsBothRun` | src/common/idempotency/idempotency.interceptor.ts:110-129 | after every overlapping miss both handlers can succeed, and the second answer replaces the first |
| `SplitIdempotency.RequestRunsAlone` | src/common/idempotency/idempotency.interceptor.ts:110-129 | uninterrupted, lookup and store compose to the one-step request |
| `Ranking.ComputeRanking` | src/modules/assessment/assessment.service.ts:180-192 | the walk with its carried score and rank computes the ranking function |
| `Ranking.SortIsStable` | src/modules/assessment/assessment.service.ts:183 | the sort is a stable permutation into descending order |
| `Ranking.RanksRightExactly` | src/modules/assessment/assessment.service.ts:180-192 | every rank is one more than the number of strictly better results exactly for well-scored lists, all fully scored lists among them |
| `Ranking.UnscoredRanksZero` | src/modules/assessment/assessment.service.ts:184-190 | a single unscored result gets rank 0 |
| `Ranking.RankingKeepsResults` | src/modules/assessment/assessment.service.ts:183-191 | the output is the sorted permutation of the input but for the ranks |
| `Ranking.RanksIgnoreOrder` | src/modules/assessment/assessment.service.ts:180-192 | ranks do not depend on the input order exactly when no unscored result is mixed with one scored zero, fully scored lists included |
| `SqlLiteral.StringReadsBack` | scripts/seed/generate-seed-sql.js:118-121 | a printed string reads back to itself and leaves the tail, exactly for tails that neither start with a quote nor continue the constant |
| `SqlLiteral.HexReadsBack` | scripts/seed/generate-seed-sql.js:123-127 | hex printing of bytes is undone by reading |
| `SqlLiteral.RowReadsBack` | scripts/seed/generate-seed-sql.js:118-148 | a printed row of null, string, bytea and JSON fields reads back to the same fields |
| `SqlLiteral.PrintedRowsDiffer` | scripts/seed/generate-seed-sql.js:118-148 | different rows print differently |
| `Backfill.PhoneTable.RunBatch` | scripts/backfill-v40-parents-phone.ts:188-211 | one batch drops the pending rows by its successes and only completes pending rows |
| `Backfill.PhoneTable.Run` | scripts/backfill-v40-parents-phone.ts:150-213 | for every pattern of failures the loop ends, ok + failed + skipped = processed, pending drops by exactly ok, what is left is at most failed + skipped, present values are kept |
| `Backfill.BackfillKeeps` | scripts/backfill-v40-parents-phone.ts:196-204 | a run replaces nothing a row held, and adds to it only the blobs of its own phone number |
| `Backfill.PhoneTable.RunTwice` | scripts/backfill-v41-customers-mobile.ts:163-228 | without failures and empty numbers one run gives every row with a number both blobs, keeping those it had, and a second leaves every row as it was and reports nothing done |
| `Backfill.PassesExactly` | scripts/backfill-v40-parents-phone.ts:238-254 | a sampled row passes exactly when what it held before the run belonged to its non-empty phone number |
| `Backfill.BlobsWithoutPhoneFail` | scripts/backfill-v40-parents-phone.ts:238-254 | a row with both blobs and no phone number fails the check |
| `Backfill.BackfilledVerifies` | scripts/backfill-v40-parents-phone.ts:230-257 | after a run the read-back check passes on every row it may sample exactly when those rows held nothing wrong before |
| `PasswordGen.GenerateRandomPassword` | src/common/crypto/password-hasher.ts:94-117 | the loop with its recursive top-up computes the generation function |
| `PasswordGen.PasswordShape` | src/common/crypto/password-hasher.ts:94-117 | a returned password has exactly the length asked for, in characters of the set |
| `PasswordGen.CharsetLiteral` | src/common/crypto/password-hasher.ts:35-37 | the 55 characters |
| `PasswordGen.FailsExactly` | src/common/crypto/password-hasher.ts:95-115 | by the number of accepted bytes: generation throws exactly when after some draw one to three characters are missing, and else succeeds exactly when enough bytes were accepted |
| `PasswordGen.ShortTopUpThrows` | src/common/crypto/password-hasher.ts:94-115 | a draw of sixteen bytes with five accepted makes the generation of eight characters throw |
| `PasswordGen.UniformFirstDraw` | src/common/crypto/password-hasher.ts:104-111 | as many first draws yield one password as any other of its length: no modulo bias |
| `PasswordGen.Unbiased` | src/common/crypto/password-hasher.ts:94-117 | top-ups included, a length-preserving self-inverse recoding takes the draws that yield one password to exactly those that yield any other of its length |
| `PasswordGen.ExactSpellings` | src/common/crypto/password-hasher.ts:106-111 | exactly 4^n strings of n accepted bytes spell a password of n characters |
| `GradeLadder.AugustsCounted` | src/common/grade-ladder.ts:46-51 | the academic year advances by exactly the number of 1 Augusts passed |
| `GradeLadder.YearStartsInAugust` | src/common/grade-ladder.ts:46-51 | an academic year runs from 1 August of its year to 31 July of the next |
| `GradeLadder.ClimbsEachAugust` | src/common/grade-ladder.ts:88-100 | a student climbs one rung per 1 August since recording, up to the top |
| `GradeLadder.GradeNeverDrops` | src/common/grade-ladder.ts:64-100 | the grade computed at a later date is on the same rung or a higher one |
| `GradeLadder.RebaseIsNeutral` | src/common/grade-ladder.ts:64-111 | writing back the computed grade with its academic year changes no later reading exactly when the base year is not ahead or the grade is the top |
| `GradeLadder.ChangesExactly` | src/common/grade-ladder.ts:64-100 | the computed grade differs from the stored one exactly when it is on the ladder below the top and was recorded in an earlier academic year |

## Left out

- Nest decorators, dependency injection, HTTP plumbing, logging, audit writes, metrics: they do not change the modelled state.
- Cryptography (HMAC, bcrypt, AES, JWT signatures) and the random source: arbitrary functions, fresh values or given byte strings.
- Fail-open and fail-close paths when Redis or PostgreSQL is down.
- Redaction.ScrubObject: getters, setters, frozen objects and proxies are not modelled; the lower-casing of keys is exact on the characters that can occur in a listed key.
- UtcCalendar.GrantLasts: instants outside the range of a JavaScript date are not cut off.
- FreeSlots.InvHolds: row locks and committed reads are those of READ COMMITTED; lock waits, deadlocks and statement timeouts are not modelled.
- RefreshTokens.RotatesAtMostOnce: holds of calls taken as one step each; `SplitRotation.UsedOnceExactly` says exactly when it holds of separate statements.
- RefreshTokens.RunKeepsInv: user agent, address, token identifier and creation time of a row are not stored in the model.
- CourseBalance.RunConserves: refund counts and frozen days are integers; fractional and non-numeric arguments are not modelled.
- StoredBalance.CourseBalanceService.ScanExpiredInDb: the listing of its query is an input; a status update that throws is not modelled.
- AccessRevocation.LogoutIsFinal: the separate per-user deactivation key and the claim checks of the parser are not modelled.
- Subscription.PeriodsAddUp: a year is 365 days of 24 hours, as in a session without daylight saving; callbacks are not deduplicated by the code either.
- TenantContext.Use: the classification of paths into routes is an input; the branch without a parent repository is left out.
- Idempotency.ReplayedExactly: requests are single steps that do not overlap; `SplitIdempotency` has those that do.
- Ranking.ComputeRanking: scores are real numbers; `NaN` is not modelled. Recording, publishing and closing of assessments are simple guards and are left out.
- SqlLiteral.RowReadsBack: integers, numerics and timestamps, which are printed without escaping, and the generation of demo data are left out; the vertical tab, white space to PostgreSQL only from version 16 on, is not; comments between continued constants are not modelled.
- Backfill.PhoneTable.Run: progress output and exit codes are left out.
- GradeLadder.ClimbsEachAugust: a grade's base year is an integer; local time zone rules are not modelled.
- Reporting queries, invoices, role masks, schedules, feedback and messaging: queries or finite tables.
