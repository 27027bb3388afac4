# OpenEstate: proofs about its money, sessions, text guard and limiters

A Dafny model of the stateful and arithmetic parts of the system. Pure code is modelled by
functions; code that updates tables, arrays or keys step by step is modelled by methods and classes,
each proved equal to a function of the old state, and the properties are proved about those functions
for every input, every interleaving or every history. One `.dfy` file holds one module of the same name.

`dafny verify dfyconfig.toml` checks the project.

| modules | subject |
|---|---|
| `Common`, `Digits`, `DecimalText`, `Rounding` | shared vocabulary: sums, digits, decimal text, what rounding half up means |
| `Money` | rounding division, percentages, GST halves, the largest-remainder split |
| `CommissionRules` | slabs and the commission of a booking |
| `CommissionLedger` | ledger entries, their sums, and every transaction as a function from ledger to ledger |
| `CommissionStore` | the two commission services as methods over mutable tables, refining `CommissionLedger` |
| `CommissionSettlement`, `CommissionRuns`, `CommissionRatchet` | one payment; whole histories; milestone accrual under rising and falling collections |
| `RefreshTokens`, `TokenService` | rotation, reuse detection, session ends and bursts; the service over its tables |
| `AuthzVersion` | the session-version cache as a protocol of interleaved steps, and the service |
| `SessionGuard` | tokens and cache together: what the guard refuses after a session end |
| `Verhoeff`, `AadhaarGuard` | the checksum for strings of any length; finding and redacting numbers in text |
| `Area` | fixed-point land area: parser, printer, conversion, price |
| `Throttler`, `TotpLockout` | the two limiters and how much they let through in any span of time |

## Reading the results

Times are integers (milliseconds). A database transaction, a Lua script or a single SQL statement is
one step. A *run* is any sequence of steps; for the token store and the version cache the steps of all
users, requests and instances interleave freely.

The code is followed where it differs from what is said about it. Four such places came out of the
proofs, each with the exact condition under which the statement holds:

- **Version cache.** The comment on `SET_MAX` (apps/api/src/auth/authz-version.service.ts:11-16) says
  two racing writers can never leave a stale, lower value behind. They can once the key is gone: a
  fill from an older read, or the late publish of the earlier of two bumps, lands on the missing key
  (`StaleFillIsServed`, `LatePublishIsServed`). Along any run the cache stays fresh if and only if no
  outdated write lands on a dropped key (`FreshRunIff`); it suffices that the key is dropped only while
  no older write is in flight (`QuietDropsSuffice`).
- **Rate-limit window.** The comment (apps/api/src/common/redis-throttler-storage.ts:27-36) says the
  window resets once expired. The script moves `expiresAt` but keeps `hits`, and the key lives at
  least one second after the last hit, so a late hit in a window carries its count into the next
  (`LateHitsCarryOver`); the count restarts exactly when the key is gone (`ExpiredWindowResetsIff`).
- **Zero grace.** The comment (apps/api/src/auth/token.service.ts:138-140) says
  `REFRESH_REUSE_GRACE_SECONDS=0` restores strict single use. A replay in the same millisecond still
  succeeds, because the comparison is `<=` (`ZeroGraceReplayIsAnswered`); it is strict exactly once the
  clock reads later than the revocation (`ZeroGraceIsStrictIff`).
- **Negative weights.** `allocate` is said to need a non-negative total and one positive weight
  (packages/shared/src/money.ts:92-101). With negative weights beside a positive sum it can hand out
  more than the total (`NegativeWeightsInventMoney`); for any weights of positive sum the shares add up
  if and only if the truncated quotas do not already exceed the total (`AllocationExactIff`).

Assumptions the histories make: a booking keeps its broker, and for the milestone result its rule's
milestone list and the accrual trigger do not change; amounts and prices are non-negative, rates lie
between 0 and 100%, milestones ascend within 1..100, as the request schemas require.

## Model

| member | source | states |
|---|---|---|
| CommissionRuns.EveryRunKeepsTheBooks | apps/api/src/commission/commission.service.ts:85-252 | After any history of accruals, requests, decisions, payments and cancellations: per booking, cash plus tax is at most what accrued, clawback sums to at most 0 and outstanding is at least minus the cash paid; per broker, the money disbursed is exactly the sum of its PAID payments |
| CommissionRuns.PayKeeps | apps/api/src/commission/commission-payment.service.ts:131-234 | A payment keeps all of it at once: books of every booking, one owner per booking, and exactly one PAID amount per disbursement |
| CommissionRuns.ClawbackKeeps | apps/api/src/commission/commission.service.ts:208-252 | A cancellation keeps it under either policy, however much was paid, also when the booking was cancelled before |
| CommissionRuns.ClawbackTotals | apps/api/src/commission/commission.service.ts:208-252 | Afterwards outstanding is 0 when written off and minus the cash paid when recovered; what was accrued, paid and withheld, and all other bookings, are unchanged |
| CommissionRuns.AccrueOnceKeeps | apps/api/src/commission/commission.service.ts:85-114 | Find-or-create of an accrual keeps the joint invariant |
| CommissionRuns.ApplyKeeps | apps/api/src/commission/commission.service.ts:32-46 | Every single transaction, refused or not, keeps the joint invariant |
| CommissionRuns.PaymentsAdvance | apps/api/src/commission/commission-payment.service.ts:87-117 | In any history a payment keeps its broker and amount, a REJECTED or PAID one stays so, and an APPROVED one can only become PAID |
| CommissionRuns.PaidWasApproved | apps/api/src/commission/commission-payment.service.ts:134-138 | A requested payment that ends up PAID stood at APPROVED at some point in between |
| CommissionLedger.OutstandingSplits | apps/api/src/commission/commission.service.ts:214-218 | Outstanding is accrued minus cash minus tax plus clawback: no entry kind is outside the account |
| CommissionLedger.BrokerShare | apps/api/src/commission/commission-payment.service.ts:141-151 | A broker's own total on a booking is the booking's whole outstanding when the broker owns it, and 0 otherwise |
| CommissionSettlement.PaySucceedsIff | apps/api/src/commission/commission-payment.service.ts:134-171 | A payment succeeds if and only if it is APPROVED, positive and at most the sum of the broker's positive outstandings |
| CommissionSettlement.PayPostsExactly | apps/api/src/commission/commission-payment.service.ts:186-223 | It lowers the broker's balance by exactly its amount; the tax withheld rises by nothing without a rule or below its threshold, and else by the rate of the amount rounded half up; its row becomes PAID and no other changes |
| CommissionSettlement.PayPerBooking | apps/api/src/commission/commission-payment.service.ts:156-221 | On each booking, cash and tax add up to the share taken, both are non-negative, and no outstanding is driven below 0 |
| CommissionSettlement.PaySettlesOldestFirst | apps/api/src/commission/commission-payment.service.ts:152-163 | Every booking in front of the last one touched is left with outstanding 0 |
| CommissionSettlement.DuesAndBalance | apps/api/src/commission/commission-payment.service.ts:67-152 | What a payment may take exceeds the net balance a request is checked against by exactly what the broker owes back on bookings with a negative total |
| CommissionSettlement.AcceptedRequestIsPayable | apps/api/src/commission/commission-payment.service.ts:61-171 | An accepted request can be approved and paid as long as no entry is posted in between |
| CommissionSettlement.PayOverdrawsIff | apps/api/src/commission/commission-payment.service.ts:152-171 | A payment leaves the broker's net balance non-negative if and only if its amount and what is owed back together fit into the positive outstandings |
| CommissionSettlement.PaySplitsTax | apps/api/src/commission/commission-payment.service.ts:177-221 | The tax is split over the bookings touched by largest remainder in proportion to what is taken; each booking is posted its share as tax and the rest as cash |
| CommissionSettlement.PayRefusals | apps/api/src/commission/commission-payment.service.ts:134-171 | Which refusal applies: unknown, wrong status, nothing due or asked, more than is due |
| CommissionSettlement.PayShares | apps/api/src/commission/commission-payment.service.ts:156-190 | The shares taken add up to the amount, the tax shares to the tax, and each tax share lies between 0 and its gross share |
| CommissionSettlement.TdsSharesFit | apps/api/src/commission/commission-payment.service.ts:177-190 | For any tax up to the gross sum, split in proportion to the gross shares: exact in sum, never above a share |
| CommissionSettlement.PostingsPerBooking | apps/api/src/commission/commission-payment.service.ts:192-221 | The posted pairs take out of every booking its gross share, as cash plus tax, and nothing else |
| CommissionSettlement.PostingsPerBroker | apps/api/src/commission/commission-payment.service.ts:192-221 | They lower the payee's balance by the gross sum and no other broker's |
| CommissionSettlement.SeenByAge | apps/api/src/commission/commission-payment.service.ts:140-154 | The queue is by age: at some point of the ledger the earlier booking had been mentioned and the later one had not |
| CommissionSettlement.SeenDistinct | apps/api/src/commission/commission-payment.service.ts:146-151 | A booking stands in the queue once |
| CommissionSettlement.SeenIsMentioned | apps/api/src/commission/commission-payment.service.ts:146-151 | The queue holds exactly the bookings with an entry of the broker |
| CommissionSettlement.GrossOfPositive | apps/api/src/commission/commission-payment.service.ts:152-154 | Each booking with a positive total is due for exactly that total; no other booking is due for anything |
| CommissionSettlement.TakenWithinOutstanding | apps/api/src/commission/commission-payment.service.ts:156-163 | What is taken from a booking lies between 0 and its outstanding, and only the payee's bookings are touched |
| CommissionLedger.TakesWhatFits | apps/api/src/commission/commission-payment.service.ts:156-171 | The loop takes the smaller of the amount and all dues |
| CommissionLedger.TakesOldestFirst | apps/api/src/commission/commission-payment.service.ts:156-163 | It takes a front part of the queue in order, all but the last in full |
| CommissionRatchet.AccruedUpToHighest | apps/api/src/commission/commission.service.ts:116-187 | Over any history of accrual calls, each with the receipts it finds, and anything else in between, a booking has accrued exactly the shares of the milestones up to the highest collected percentage any successful call has read, and nothing before its total is frozen |
| CommissionRatchet.AccruedNeverShrinks | apps/api/src/commission/commission.service.ts:116-172 | Along such a history the accrued total never shrinks, never exceeds the frozen total, and equals it once some call has read the last milestone |
| CommissionRatchet.HistoryIsRun | apps/api/src/commission/commission.service.ts:32-46 | A history of calls is a run of transactions, so the books stay balanced along it |
| CommissionRatchet.AttemptedIfRead | apps/api/src/commission/commission.service.ts:136-147 | A milestone's posting is attempted if and only if some successful call read a percentage that reaches it |
| CommissionRatchet.MilestoneRatchet | apps/api/src/commission/commission.service.ts:116-172 | Milestones posted are exactly those attempted, once each, for their own share, and the accrued total is the sum of those shares |
| CommissionRatchet.RatchetBounds | apps/api/src/commission/commission.service.ts:128-132 | The shares up to a reading grow with it, stay within the frozen total, and make it up from the last milestone on |
| CommissionRatchet.ReachedByHighest | apps/api/src/commission/commission.service.ts:136-138 | A milestone was reached by some reading if and only if it is reached by the highest |
| CommissionRatchet.OthersLeaveAccruals | apps/api/src/commission/commission.service.ts:140-146 | No payment, cancellation, decision or other booking's accrual changes a booking's accruals or its frozen total |
| CommissionRatchet.ReachedIsRun | apps/api/src/commission/commission.service.ts:136-171 | One milestone call equals its reached milestones posted one transaction at a time |
| CommissionRatchet.EndpointIsRun | apps/api/src/commission/commission.service.ts:32-46 | A successful accrual call equals a run of its transactions, so all results about runs cover it |
| CommissionRatchet.OnBookingAccruesCommission | apps/api/src/commission/commission.service.ts:32-114 | On booking, one entry accrues the whole frozen total to the booking's broker; a total frozen now is the commission the terms give on the price |
| CommissionRatchet.CallFreezesCommission | apps/api/src/commission/commission.service.ts:40-45 | A milestone call freezes the same total, once |
| CommissionRatchet.AccrueFailsIff | apps/api/src/commission/commission.service.ts:49-83 | An accrual call fails if and only if nothing is frozen yet and there is no rule or no slab that holds the price |
| CommissionRatchet.AccrueAgain | apps/api/src/commission/commission.service.ts:26-46 | Calling the accrual endpoint again with no more collected changes nothing, whatever the terms or the price have become |
| CommissionLedger.ReachedExactly | apps/api/src/commission/commission.service.ts:175-187 | Despite two truncations, milestone m counts as reached exactly when net received times 100 is at least m times the price, for negative net received as well |
| CommissionLedger.MilestoneSharesPartition | apps/api/src/commission/commission.service.ts:128-132 | Milestone shares are non-negative and add up to the frozen total, also when the last milestone is below 100 |
| CommissionLedger.MilestoneSharesProportional | apps/api/src/commission/commission.service.ts:128-132 | They are the largest-remainder split in proportion to what each percentage adds to the one before it |
| CommissionLedger.NetReceivedIs | apps/api/src/commission/commission.service.ts:174-185 | Net received is the sum of gross minus tax over the receipts that are not reversed and neither pending nor bounced |
| CommissionLedger.NothingReachedWithoutPrice | apps/api/src/commission/commission.service.ts:176-176 | Without a positive price no milestone is reached |
| CommissionLedger.SnapshotIsCommission | apps/api/src/commission/commission.service.ts:48-83 | What is frozen is the commission the terms give at the time, and stays |
| CommissionLedger.ClawbackPosts | apps/api/src/commission/commission.service.ts:208-252 | A cancellation posts, for its booking and broker only: one reversal of what is outstanding if anything is, and, if cash was paid, one recovery of all of it or one write-off of zero |
| CommissionLedger.RequestIs | apps/api/src/commission/commission-payment.service.ts:61-85 | A request is accepted exactly up to the net balance, and adds one REQUESTED row of that broker and amount |
| CommissionLedger.DecideIs | apps/api/src/commission/commission-payment.service.ts:87-117 | A decision needs a REQUESTED payment and changes that payment's status to the decided one, and nothing else |
| CommissionLedger.MarginalSum | apps/api/src/commission/commission.service.ts:128-131 | The marginal weights add up to the last milestone |
| CommissionStore.NetReceivedFrom | apps/api/src/commission/commission.service.ts:176-185 | The loop adds gross minus tax over the receipts that are neither reversed nor uncleared |
| CommissionStore.Store.AccrueForBooking | apps/api/src/commission/commission.service.ts:32-46 | Unknown booking, no broker, no rule, no slab: the right outcome and nothing changed; otherwise the tables of the specified accrual, with the frozen total the commission of the price |
| CommissionStore.Store.EnsureSnapshot | apps/api/src/commission/commission.service.ts:49-83 | The total is computed at most once per booking, as the commission its terms give on its price, and returned unchanged afterwards; no rule or no slab freezes nothing |
| CommissionStore.Store.FindAccrual | apps/api/src/commission/commission.service.ts:95-98 | Finds an accrual of this booking and milestone if and only if there is one |
| CommissionStore.Store.AccrueOnceTx | apps/api/src/commission/commission.service.ts:147-168 | Returns the existing accrual or posts it, and the result is in the ledger either way |
| CommissionStore.Store.AccrueOnMilestones | apps/api/src/commission/commission.service.ts:116-172 | Posts exactly the reached milestones not posted yet, each with its largest-remainder share |
| CommissionStore.Store.HandleBookingCancelled | apps/api/src/commission/commission.service.ts:208-252 | Appends exactly the entries it returns: the reversal of what is outstanding, then recovery or write-off of the cash paid |
| CommissionStore.Store.PostClawback | apps/api/src/commission/commission.service.ts:258-285 | A write-off without a reason is refused and posts nothing; anything else posts one entry |
| CommissionStore.Store.RequestPayment | apps/api/src/commission/commission-payment.service.ts:61-85 | Accepted if and only if the broker is known and the amount is at most the balance; then one REQUESTED row is added |
| CommissionStore.Store.ApprovePayment | apps/api/src/commission/commission-payment.service.ts:87-101 | REQUESTED becomes APPROVED; any other status, or no row, is refused and nothing changes |
| CommissionStore.Store.RejectPayment | apps/api/src/commission/commission-payment.service.ts:103-117 | REQUESTED becomes REJECTED; any other status, or no row, is refused and nothing changes |
| CommissionStore.Store.OutstandingBookings | apps/api/src/commission/commission-payment.service.ts:140-154 | Yields, oldest first, the broker's bookings with a positive total |
| CommissionStore.Store.TotalsByBooking | apps/api/src/commission/commission-payment.service.ts:140-151 | The map-filling loop holds every booking of the broker in order of first mention, each with its total |
| CommissionStore.Store.TakeOldestFirst | apps/api/src/commission/commission-payment.service.ts:156-163 | The loop over `remaining` yields the specified takes, and what is left is the amount less their sum |
| CommissionStore.Store.WithholdTds | apps/api/src/commission/commission-payment.service.ts:177-190 | No shares without a rule or below its threshold; from it on, the rounded rate of the amount, split over the allocations by the allocation proved to be largest-remainder |
| CommissionStore.Store.PostPairs | apps/api/src/commission/commission-payment.service.ts:192-221 | The posting loop appends one payment entry per allocation and a tax entry where its share is positive |
| CommissionStore.Store.PayPayment | apps/api/src/commission/commission-payment.service.ts:131-234 | Reads, allocates, splits and posts as specified; on any failure the tables are untouched |
| CommissionRules.ValidateSlabContiguity | packages/shared/src/commission.ts:213-232 | Accepts a list if and only if, in order, it starts at 0, each slab ends where the next starts and only the last is unbounded; each of the five refusals names an actual defect |
| CommissionRules.SortPermutes | packages/shared/src/commission.ts:215-215 | Sorting keeps every slab with its multiplicity |
| CommissionRules.ValidatedSlabsMatch | packages/shared/src/commission.ts:201-210 | Every accepted list has a match for every non-negative amount, even when inner boundaries are not increasing |
| CommissionRules.MatchIsUnique | packages/shared/src/commission.ts:195-210 | With increasing boundaries the match is the one slab covering the amount, and a boundary amount takes the higher slab |
| CommissionRules.CommissionIs | packages/shared/src/commission.ts:242-255 | The commission is the flat amount, or the rounded percentage of the price, or the rounded percentage of the first slab in order whose half-open range holds the price; it is missing exactly where no slab does |
| CommissionRules.CommissionOfTheOneSlab | packages/shared/src/commission.ts:195-255 | With increasing boundaries that is the percentage of the one slab holding the price |
| CommissionRules.SortStable | packages/shared/src/commission.ts:215-215 | Slabs of equal position keep their order |
| CommissionRules.CommissionWithin | packages/shared/src/commission.ts:242-255 | Valid terms always give a commission, never negative, and a percentage never above the price |
| Money.RoundedDiv | packages/shared/src/money.ts:74-82 | The nearest integer to the quotient, ties away from zero, for all signs |
| Money.PercentOfWithin | packages/shared/src/money.ts:88-90 | A rate within 0..100% takes between nothing and the whole amount |
| Money.GstIs | packages/shared/src/money.ts:174-186 | Within a state two equal halves, each half the rate rounded half up, and no IGST; across states IGST at the whole rate and nothing else |
| Money.GstSplitWithinOnePaisa | packages/shared/src/money.ts:157-191 | Halves taken separately and the whole rate differ by at most one paisa in total, for any base |
| Money.Allocate | packages/shared/src/money.ts:102-144 | The loops compute the specified allocation, and fail exactly for no weights and for a sum that is not positive |
| Money.AllocationIsLargestRemainder | packages/shared/src/money.ts:92-144 | For non-negative weights: exact sum, each share the floor of its quota or one more, and the extra units at the largest fractions, ties to the lowest index |
| Money.LargestRemainderUnique | packages/shared/src/money.ts:92-144 | Only one list of shares fits that description, so it determines the result |
| Money.UnitGoesByRank | packages/shared/src/money.ts:130-141 | The bucket of rank k gets an extra unit if and only if k is below the number of leftover units |
| Money.LeftoverBounds | packages/shared/src/money.ts:117-130 | There are fewer leftover units than buckets, and they weigh exactly what the remainders weigh |
| Money.ExactQuotaKept | packages/shared/src/money.ts:121-128 | A bucket whose quota is whole gets exactly that; a zero weight gets 0 |
| Money.AllocationWithinWeights | packages/shared/src/money.ts:102-144 | If the total is at most the weight sum, each share lies between 0 and its weight |
| Money.AllocationConserves | packages/shared/src/money.ts:102-110 | With non-negative weights, shares add up to the total for either sign, and opposite totals give opposite shares |
| Money.AllocationWithinOneUnit | packages/shared/src/money.ts:121-143 | Each share misses its exact quota by less than one unit, for either sign |
| Money.AllocationExactIff | packages/shared/src/money.ts:112-144 | For a non-negative total and weights of any sign with a positive sum, the shares add up to the total if and only if the truncated quotas do not exceed it |
| Money.NegativeWeightsInventMoney | packages/shared/src/money.ts:92-144 | Two paise over weights -1, -1 and 5 come out as a different sum |
| RefreshTokens.RunKeeps | apps/api/src/auth/token.service.ts:78-302 | Along every run: at most one unrevoked token per family, one owner per family, distinct hashes |
| RefreshTokens.ReachableStates | apps/api/src/auth/token.service.ts:78-302 | The same, stated for all states reachable from users without tokens |
| RefreshTokens.DeadStaysDead | apps/api/src/auth/token.service.ts:142-302 | A family without an unrevoked token never regains one, in any run |
| RefreshTokens.DeadNeverRotates | apps/api/src/auth/token.service.ts:168-213 | No token of such a family is ever exchanged |
| RefreshTokens.RotateSucceedsIff | apps/api/src/auth/token.service.ts:142-213 | Exactly which presentations are answered, in terms of the stored rows: an active owner, and either an unrevoked token not past its expiry or one revoked at most the grace ago whose family has an unrevoked token that expires later than now |
| RefreshTokens.SuccessorIsLive | apps/api/src/auth/token.service.ts:215-242 | The successor is new, of the same user and family, carries the version read under the lock, and is the family's only live token |
| RefreshTokens.RotationConsumes | apps/api/src/auth/token.service.ts:181-242 | An answered presentation revokes the family's one unrevoked token at the time of the call and changes no other row or user |
| RefreshTokens.ReuseEndsFamily | apps/api/src/auth/token.service.ts:181-202 | For an active owner, a token revoked longer ago than the grace, or without a recorded time, or whose family has no unexpired live token, is refused, and exactly the unrevoked rows of its family are revoked, now |
| RefreshTokens.ExpiredIsRevoked | apps/api/src/auth/token.service.ts:204-210 | An unrevoked token past its expiry is refused and revoked alone |
| RefreshTokens.StrangersChangeNothing | apps/api/src/auth/token.service.ts:152-161 | An unknown token, or one of an inactive owner, is refused and changes nothing |
| RefreshTokens.LogoutEndsFamily | apps/api/src/auth/token.service.ts:251-259 | Revoking by token revokes exactly the unrevoked rows of that token's family; an unknown token revokes nothing |
| RefreshTokens.RevokeAllLeavesNone | apps/api/src/auth/token.service.ts:261-268 | Revoking for a user revokes exactly the user's unrevoked rows and leaves the version as it was |
| RefreshTokens.ZeroGraceIsStrictIff | apps/api/src/auth/token.service.ts:181-197 | With grace 0, an active owner and an unexpired live token, a replay is refused if and only if the clock reads later than the revocation, or no revocation time was recorded |
| RefreshTokens.ZeroGraceReplayIsAnswered | apps/api/src/auth/token.service.ts:138-197 | Login at 0, refresh at 10, the consumed token again at 10, grace 0: a new session |
| RefreshTokens.EndSessionsRevokes | apps/api/src/auth/token.service.ts:281-302 | The version rises by one; exactly the user's unrevoked rows outside the family of the spared token are revoked, now; every other row and user is unchanged |
| RefreshTokens.EndSessionsKills | apps/api/src/auth/token.service.ts:281-302 | Every family of the user but that of the spared token is left with no live token, all of them when the token is missing or unknown; the spared family and other users' families keep theirs |
| RefreshTokens.EndedFamiliesStayEnded | apps/api/src/auth/token.service.ts:281-302 | In every later run no token of a family the user had, other than the spared one, is exchanged again |
| RefreshTokens.EndOutrunsRotation | apps/api/src/auth/token.service.ts:45-55 | An access token of a rotation that came before a session end carries a lower version, whenever it is signed, and is refused in every later state |
| RefreshTokens.VersionsOnlyRise | apps/api/src/auth/token.service.ts:281-288 | A user's version never falls along a run |
| RefreshTokens.BenignSucceeds | apps/api/src/auth/token.service.ts:125-132 | A fresh token, or one consumed within the window while the live one is unexpired, is answered and the family stays alive |
| RefreshTokens.BurstConverges | apps/api/src/auth/token.service.ts:125-141 | In any order and interleaving, a run of such presentations answers every one, leaves an unexpired token at the clock of each, and ends with exactly one unrevoked token |
| TokenService.TokenStore.CreateRefreshToken | apps/api/src/auth/token.service.ts:78-105 | A login appends one unrevoked row of the user that expires after the given lifetime, of a family and hash no earlier row has, and changes no other |
| TokenService.TokenStore.RotateOneRow | apps/api/src/auth/token.service.ts:216-242 | Revokes the row, appends its successor, and returns the new value |
| TokenService.TokenStore.RotateUnderLock | apps/api/src/auth/token.service.ts:168-213 | All branches taken under the lock give the specified tables and answer |
| TokenService.TokenStore.RotateRefreshToken | apps/api/src/auth/token.service.ts:142-166 | Nothing changes for an unknown token or an inactive owner; otherwise the specified rotation, with the version read under the lock |
| TokenService.TokenStore.RevokeFamilyOf | apps/api/src/auth/token.service.ts:251-259 | Revokes the unrevoked rows of the token's family and no others |
| TokenService.TokenStore.RevokeAllForUser | apps/api/src/auth/token.service.ts:261-268 | Revokes the unrevoked rows of the user and no others |
| TokenService.TokenStore.EndSessionsOf | apps/api/src/auth/token.service.ts:281-302 | Bump and revocation in one step; the version returned is the one now stored |
| TokenService.AuthService.RefreshTokens | apps/api/src/auth/auth.service.ts:246-290 | The access token carries the version of the rotation; an account refused after it still has its token consumed |
| TokenService.AuthService.EndOtherSessions | apps/api/src/auth/auth.service.ts:471-474 | Ends, then publishes the version the end returned; once written, the cache holds at least that version |
| AuthzVersion.RunBounded | apps/api/src/auth/authz-version.service.ts:91-167 | Over all interleavings of bumps, publishes, fills, drops and failures, neither cache, reads nor answers exceed the database version |
| AuthzVersion.FreshRunIff | apps/api/src/auth/authz-version.service.ts:11-24 | Along a run the cache is never below a published version if and only if no outdated write lands on a dropped key |
| AuthzVersion.ReadsSeePublishes | apps/api/src/auth/authz-version.service.ts:91-109 | In such a run every read, from cache or database, answers at least every version whose publish, by write or by delete, took effect before it started |
| SessionGuard.EndedSessionRefused | apps/api/src/auth/guards/session-version.guard.ts:26-33 | Token tables and cache in one run: after a rotation, a later session end and the publish of its version, every read that starts after that differs from the version of the rotation's access token, whenever it was signed, unless a stale write landed |
| SessionGuard.RunKeeps | apps/api/src/auth/auth.service.ts:471-474 | Along a joint run the version rotations read is the one the cache protocol knows, and neither it nor what is published falls |
| SessionGuard.ReadAnswersSince | apps/api/src/auth/authz-version.service.ts:91-109 | A read that starts once a version is published, by cache hit or through the database, answers on that basis however many steps it takes |
| AuthzVersion.QuietDropsSuffice | apps/api/src/auth/authz-version.service.ts:144-167 | If the key is dropped only while no older write is in flight, no outdated write lands and every read is truthful |
| AuthzVersion.StaleFillIsServed | apps/api/src/auth/authz-version.service.ts:11-24 | A run in which a late fill brings back a version below a published one and a read gets it |
| AuthzVersion.LatePublishIsServed | apps/api/src/auth/authz-version.service.ts:152-167 | A run in which the later of two bumps drops the key, the earlier one's write lands, and a read gets it |
| AuthzVersion.EndedTokenRefused | apps/api/src/auth/guards/session-version.guard.ts:26-33 | In such a run the guard refuses every token whose version is below one published before its read started |
| AuthzVersion.WrittenThroughIs | apps/api/src/auth/authz-version.service.ts:152-167 | A write-through keeps the larger version, drops the key or changes nothing, as the cache commands went, and touches no other key |
| AuthzVersion.AuthzVersionService.EvalSetMax | apps/api/src/auth/authz-version.service.ts:17-24 | The key ends up with the larger of what it held and what came in, and that is returned |
| AuthzVersion.AuthzVersionService.Current | apps/api/src/auth/authz-version.service.ts:92-109 | Answers the cached version, or the database's when the cache cannot be read or is empty; null exactly for an unknown user not cached; fills the cache only on a miss |
| AuthzVersion.AuthzVersionService.WriteThrough | apps/api/src/auth/authz-version.service.ts:152-167 | After a write or delete the key is absent or at least the version written |
| AuthzVersion.AuthzVersionService.Publish | apps/api/src/auth/authz-version.service.ts:125-127 | Publishing writes one version through |
| AuthzVersion.AuthzVersionService.BumpUsers | apps/api/src/auth/authz-version.service.ts:112-119 | Exactly the listed users rise by one, once each however often listed, their reachable keys hold the new version or nothing, and other users' keys are untouched |
| Verhoeff.SingleErrorsDetected | packages/shared/src/aadhaar-guard.ts:55-73 | No valid string of any length stays valid after changing one digit or swapping two unequal neighbours |
| Verhoeff.VerhoeffCheckDigit | packages/shared/src/aadhaar-guard.ts:56-63 | The digit returned makes the string valid, and no other digit does |
| Verhoeff.IsValidVerhoeff | packages/shared/src/aadhaar-guard.ts:66-73 | The loop over the tables agrees with the checksum folded in the group |
| Verhoeff.CheckDigitIsUnique | packages/shared/src/aadhaar-guard.ts:55-73 | An appended digit is valid if and only if it is the inverse of the checksum of the rest |
| Verhoeff.OneDigitChanged | packages/shared/src/aadhaar-guard.ts:66-73 | Changing any one digit at any position changes the checksum |
| Verhoeff.NeighboursSwapped | packages/shared/src/aadhaar-guard.ts:66-73 | Swapping any two unequal neighbours changes the checksum |
| Verhoeff.ChecksumAppended | packages/shared/src/aadhaar-guard.ts:56-73 | Appending a digit multiplies the checksum from the left and shifts every other position by one |
| Verhoeff.MulComposes | packages/shared/src/aadhaar-guard.ts:25-36 | The group operation is composition of the ten symmetries of the pentagon |
| Verhoeff.TableD | packages/shared/src/aadhaar-guard.ts:25-36 | Table D is that group operation |
| Verhoeff.TableP | packages/shared/src/aadhaar-guard.ts:38-48 | Row i of P is row 1 applied i times, with period 8 |
| Verhoeff.TableInv | packages/shared/src/aadhaar-guard.ts:50-50 | Table INV is inversion |
| Verhoeff.RowOneAntisymmetric | packages/shared/src/aadhaar-guard.ts:38-41 | Row 1 never commutes two different digits, the property swaps are caught by |
| Verhoeff.RowOneValues | packages/shared/src/aadhaar-guard.ts:38-41 | Row 1 is the permutation (0 1 5 8 9 4 2 7)(3 6) |
| Verhoeff.PublishedExample | packages/shared/src/aadhaar-guard.ts:55-73 | 236 has check digit 3 |
| Verhoeff.PermutedInjective | packages/shared/src/aadhaar-guard.ts:38-48 | Every position permutes the digits |
| AadhaarGuard.MatchIsAadhaarLike | packages/shared/src/aadhaar-guard.ts:75-93 | The matches are exactly the places of the text with three groups of four digits, the first digit 2 or more, at most one blank or hyphen between groups, no digit on either side and a valid checksum |
| AadhaarGuard.RedactionIsFinal | packages/shared/src/aadhaar-guard.ts:102-120 | Redacted text holds no such number at any position, overlaps included, and redacting again changes nothing |
| AadhaarGuard.RedactionReplacesOnly | packages/shared/src/aadhaar-guard.ts:102-120 | Redaction replaces such numbers and keeps every other character; a number it does not replace begins inside one it does |
| AadhaarGuard.RewriteLeavesNone | packages/shared/src/aadhaar-guard.ts:102-113 | No match is left after rewriting with any text that is not empty, has no digit and does not start with a separator |
| AadhaarGuard.RedactionKeepsCleanText | packages/shared/src/aadhaar-guard.ts:102-120 | Text is returned unchanged if and only if it holds no such number |
| AadhaarGuard.FindAadhaarLikeNumbers | packages/shared/src/aadhaar-guard.ts:77-93 | Finds exactly the Aadhaar-like numbers of the text with their ends and digits, overlapping ones included, in order of position |
| AadhaarGuard.ReplaceMatches | packages/shared/src/aadhaar-guard.ts:102-113 | The cursor loop over all matches, skipping overlapped ones, is a single left-to-right rewriting |
| AadhaarGuard.RedactAadhaarLike | packages/shared/src/aadhaar-guard.ts:117-120 | The rewriting with the redaction text |
| AadhaarGuard.SameWindow | packages/shared/src/aadhaar-guard.ts:77-77 | Whether a window matches depends on its own characters and the one behind it |
| AadhaarGuard.NoneAtFront | packages/shared/src/aadhaar-guard.ts:102-113 | A window at the front of rewritten text would have been a match of the input and so replaced |
| Area.ToAreaScaled | packages/shared/src/area.ts:70-95 | Parsing with the hand-written carry is the value of the text times 10^6, rounded half away from zero, for any number of digits; unreadable text is refused |
| Area.IncrementPlaces | packages/shared/src/area.ts:80-88 | Split, reverse, carry, join adds one unit, with the overflow reported and the places then zero |
| Area.CarryThrough | packages/shared/src/area.ts:81-87 | The in-place carry loop adds one to the number in the array, overflow included |
| Area.ScaledValue | packages/shared/src/area.ts:76-94 | Cutting to six places and looking at the seventh digit is exactly rounding half away from zero of the whole number |
| Area.SeventhDigitDecides | packages/shared/src/area.ts:79-79 | The rest of the digits is at least half a unit if and only if its first digit is 5 or more |
| Area.PrintedParsesBack | packages/shared/src/area.ts:97-107 | Printing and parsing gives back every integer, of either sign |
| Area.RoundingsAgree | packages/shared/src/area.ts:203-213 | Area's rounding and money's agree on every numerator and non-zero denominator |
| Area.TextIsWorth | packages/shared/src/area.ts:70-95 | Any text of an optional minus, whole digits and an optional fraction of any length is read as its value times 10^6, rounded half away from zero; what follows a second point, or a non-digit after six fraction digits, is ignored |
| Area.ReadableParts | packages/shared/src/area.ts:70-95 | Every other text is refused |
| Area.PrintedForm | packages/shared/src/area.ts:99-107 | Printed text has no leading or trailing zeros, at most six places, and a point only before a fraction |
| Area.UnitsAre | packages/shared/src/area.ts:46-55 | An acre is 4840 square yards or 40 guntas, a square yard 9 square feet, and the square-metre factor is the exact one rounded to ten places |
| Area.ConversionRoundTrip | packages/shared/src/area.ts:117-139 | To square feet and back in the same unit returns every area exactly, in all five units |
| Area.ComputeBaseAmountPaise | packages/shared/src/area.ts:160-175 | The price is within half a paisa of the exact rational, ties away from zero |
| Area.MatchedUnitsCancel | packages/shared/src/area.ts:170-174 | When the units match, the price is rate times area rounded once and the factor plays no part |
| Area.PriceIndependentOfRateUnit | packages/shared/src/area.ts:160-175 | k times the rate per a k times larger unit gives the same price |
| Throttler.HitsInSpan | apps/api/src/common/redis-throttler-storage.ts:37-92 | Whatever calls came before, any span T admits at most limit * (T / min(ttl, block) + 2) hits, key expiry and unblocking included |
| Throttler.ReachableKeys | apps/api/src/common/redis-throttler-storage.ts:37-92 | After any calls on a key that did not exist, it is counting or blocked since a restart no later than the last call |
| Throttler.AdmittedFrom | apps/api/src/common/redis-throttler-storage.ts:37-92 | From any reachable key: what is left of the current count, one full count, and a full count per gap that fits |
| Throttler.AdmittedSince | apps/api/src/common/redis-throttler-storage.ts:37-92 | From a restart on: what is left of this count and a full count per gap that fits |
| Throttler.WindowAdmitsExactlyLimit | apps/api/src/common/redis-throttler-storage.ts:43-92 | Of the hits on a new key within its first ttl exactly the first `limit` are admitted; the next one blocks the key until the block duration after it |
| Throttler.BlockHolds | apps/api/src/common/redis-throttler-storage.ts:63-82 | While a block lasts nothing is admitted and its end does not move |
| Throttler.BlockEnds | apps/api/src/common/redis-throttler-storage.ts:72-82 | The first hit from the end of the block on is admitted, as the first of a new window |
| Throttler.NoDurationNoBlock | apps/api/src/common/redis-throttler-storage.ts:67-82 | Without a positive block duration nothing is ever blocked |
| Throttler.ZeroLimitBlocks | apps/api/src/common/redis-throttler-storage.ts:63-70 | With a limit below one the first hit is blocked |
| Throttler.RestartsAreApart | apps/api/src/common/redis-throttler-storage.ts:52-82 | The count restarts no earlier than min(ttl, block) after it last did, and restarts at one hit |
| Throttler.OneHit | apps/api/src/common/redis-throttler-storage.ts:63-70 | Between restarts each admitted hit uses up one of the limit, and a blocked one none |
| Throttler.ExpiredWindowResetsIff | apps/api/src/common/redis-throttler-storage.ts:59-61 | A hit on an expired window, off the two expiry instants, starts a new count if and only if more than a second has passed since the one before |
| Throttler.LateHitsCarryOver | apps/api/src/common/redis-throttler-storage.ts:84-86 | Limit 2 in ten seconds: the third hit falls into the second window and is blocked for the first two |
| Throttler.RedisThrottlerStorage.Increment | apps/api/src/common/redis-throttler-storage.ts:43-91 | The reassignments of the script amount to restart, count, block or stay blocked, and the record reports the new key |
| TotpLockout.AttemptsInSpan | apps/api/src/auth/totp-lockout.ts:62-78 | Any span T admits at most 5 * (T / 5 minutes + 1) attempts, from any reachable row |
| TotpLockout.FifthIsLater | apps/api/src/auth/totp-lockout.ts:45-78 | The attempt five places after any admitted one is at least five minutes later |
| TotpLockout.FifthLocks | apps/api/src/auth/totp-lockout.ts:62-78 | From a cleared row four attempts leave it open and the fifth closes it until exactly five minutes after it |
| TotpLockout.LockSeparates | apps/api/src/auth/totp-lockout.ts:64-72 | The attempt after the one that sets the lock waits the lockout out |
| TotpLockout.BoundIsReached | apps/api/src/auth/totp-lockout.ts:45-78 | The bound is tight: for every number of lockouts some attempts spanning just that time reach it |
| TotpLockout.ReachableCounted | apps/api/src/auth/totp-lockout.ts:64-70 | Every reachable row without a lock has counted fewer than five |
| TotpLockout.LockoutRow.ReserveTotpAttempt | apps/api/src/auth/totp-lockout.ts:62-78 | Admits if and only if there is no lock or it has run out; a refused attempt changes nothing |
| TotpLockout.LockoutRow.ClearAttempts | apps/api/src/auth/totp-lockout.ts:21-22 | A successful verify clears counter and lock |

## Left out

- Overlapping `pay` transactions, row-level security and isolation races: each transaction is one atomic step, and ledger entries stand in creation order, so sorting by creation time is the identity.
- Switching a booking's broker, the accrual trigger or the milestone list after accrual has begun: the ratchet and the ledger history assume they stay.
- Money.ComputeGst: the rate is even, because an odd one makes half of it fractional and the code throws.
- Money.RoundedDiv: the denominator is not zero; the code throws there.
- Area.DivRoundHalfUp: the denominator is not zero; the code throws there.
- Area.ToAreaScaled: takes the text after trimming, and refuses whatever is not plain digits; BigInt's own hexadecimal, signed and blank-padded literals, and number or bigint arguments, are not modelled.
- Verhoeff.IsValidVerhoeff: digit strings only, the one kind its callers pass.
- Verhoeff.VerhoeffCheckDigit: digit strings only, the one kind its callers pass.
- TokenService.AuthService.RefreshTokens: rotation, account lookup and signing are one step here and three in the code; `RefreshTokens.EndOutrunsRotation` and `SessionGuard.EndedSessionRefused` cover what may happen between them, by leaving the state at signing free.
- AuthzVersion.AuthzVersionService.Current: one step here; the cache read, the database read and the fill interleave with everything else in the protocol that the lemmas of `AuthzVersion` are about.
- AuthzVersion.ReadsSeePublishes: a publish whose write and delete both fail does not count as one, although the caller is not told; the old version can then be served until the key expires.
- RefreshTokens.BurstConverges: the conditions on each step (presented token fresh or within grace, live token unexpired, no other revocation of the family) are those the comment on the grace window relies on.
- Throttler.ExpiredWindowResetsIff: leaves out the two instants at which Redis may or may not have dropped the key yet.
- Throttler.HitsInSpan: assumes one configuration for all calls on a key, a limit of at least 1 and positive times; the converse, that a client under the limit is never blocked, is false by `LateHitsCarryOver`.
- TotpLockout.AttemptsInSpan: the clock does not run backwards and no verify succeeds in between.
- The optional `family` argument of `createRefreshToken` (every caller omits it), expiry strings such as `7d`, and the pending two-factor token.
- Argon2, AES-GCM, JWT signing, TOTP codes and SHA-256: opaque; hashes are injective and random identifiers are never repeated.
- One clock reading per transaction in the token store, where the code reads the clock several times.
- Deleting users in the cache protocol, and `bumpRole`, which differs from `bumpUsers` in its WHERE clause only.
- The choice of the applicable tax rule by date and of the commission rule by broker and project: the rule found is an argument.
- Conversion of stored decimal percentages to basis points with JavaScript numbers: basis points and hundredths of a percent are integers here.
- `maskAadhaarLike`, `isAadhaarLikeValue` and the field-name keywords: masking keeps four digits that can join what follows, so finality is claimed for redaction only. Text is a sequence of characters, not of UTF-16 units.
- Printing for display (`formatInr`, `formatArea`), notifications, request validation, the web applications, and the receipt, cancellation and post-sales services.
