# Verified model of the GLC bridge service

A Dafny model of the fund-moving core of the GLC bridge service: the integer
arithmetic that prices a transfer and its two inverses, the admission decision
built on them, the life of a quote from lock to settlement, the route
availability verdict, the audited-mutation protocol of the admin surface, the
fee table, cursor pagination and form decoding. `dafny verify dfyconfig.toml`
checks everything.

Amounts are canonical 8-decimal units in `u64`; every product the service
checks or widens is checked or widened here, and overflow is an outcome of its
own. Prices, chain reads, time, storage failures and interleavings are inputs,
quantified over.

| file | holds |
|---|---|
| `Numbers.dfy` | machine integers; floor and ceiling division as Galois connections |
| `AmountConversion.dfy` | decimal conversion, the fee, the largest gross for a net |
| `BridgeRate.dfy` | the quote, its verification, fold pricing |
| `QuoteInverse.dfy` | the binary search for the largest source amount |
| `QuoteEconomics.dfy` | hopping, splitting, the one-band buffer |
| `DestinationAdmission.dfy` | admission by inverted maximum |
| `AdmittedOrder.dfy` | what admission buys at the lock |
| `QuoteLifecycle.dfy` | expire, lock, orphan, re-lock, park, resume, settle |
| `RouteAvailability.dfy` | gates, public verdict, operator decomposition |
| `AdminActions.dfy`, `AuditProtocol.dfy`, `AdminLedger.dfy` | the audited actions, the concurrent protocol, the ledger object |
| `Fees.dfy` | chain policies, the fee table, its resolution at load |
| `DecimalText.dfy`, `Pagination.dfy`, `FormDecode.dfy` | integers as text, the cursor walk, percent decoding |

## Where the code and its documentation differ

The model follows the code. Each difference has a concrete witness and an exact
condition.

- `net_out(max + 1) > buffered` (`service/src/bridge_rate.rs:740`) fails when
  the next amount overflows: `AboveMaxMayOverflow`; it holds exactly when the
  first amount rated past the limit is a quotable u64, a figure computed from
  the search's arguments: `AboveMaxExceedsIff`.
- "The net at the maximum is at least one destination unit"
  (`service/src/bridge_rate.rs:742-745`) fails at the top of u64 and where one
  source unit already exceeds the limit: `MaxAtTopDeliversNothing`,
  `OneUnitTooLarge`; exact condition: `MaxDeliversAUnitIff`.
- "A buffer of one band keeps every such order payable"
  (`service/src/bridge_rate.rs:702-706`) fails for limits of a few destination
  units, and for orders whose re-strike overflows: `OneBandCounterexample`,
  `OneBandMayOverflow`. Against the gate the live book applies, which rounds the
  movement down, it holds for all orders exactly when nothing is admitted, or
  the largest amount that fits the buffered limit, grown by one band and one
  basis point, still fits the full one, overflow included: `OneBandIff`. With
  the default buffer 21 destination units of limit are enough below the overflow
  line: `DefaultBufferSuffices`.
- "Nothing can settle them" of a fold under a refused rate
  (`service/src/bridge_rate.rs:617-621`): settlement verification accepts such a
  row, because it has the shape of a legacy row: `RefusedFoldVerifies`. Only the
  recorded park reason protects it. Some run pays it exactly when a recoverable
  hold was recorded in place of the refusal and, on a Solana-Robinhood route, the
  row has a destination amount: `RefusedFoldPaysIff`.
- "The flooring scale a quoted net was struck at" (`service/src/ledger/types.rs:886-894`)
  is read off the row, and a lock that floors the net to nothing loses it: a
  later lock then floors at one canonical unit and reserves in the wrong unit:
  `ScaleLost`. Over a whole run the scale is kept exactly when no lock floors the
  net to nothing: `ScaleOverRuns`.
- "The scope then commits just the failure audit row"
  (`service/src/admin_api.rs:2434-2436`): a refused re-opening can also make a
  transition of the automatic liquidity gate durable:
  `RefusalMayMoveTheAutomaticGate`; exactly when: `RefusalEffect`.
- Conversion across 20 or more decimals refuses even the amount zero, the only
  one with an equal there: `ConvertIffEqualValueExists`.
- A percent escape with a plus sign (`%+5`) is decoded instead of refused:
  `SignedEscapeAccepted`; exactly when decoding is standard:
  `StandardIffNoSignedEscape`.

## Model

| member | source | states |
|---|---|---|
| AmountConversion.ConvertIffEqualValueExists | service/src/amount_conversion.rs:127-191 | conversion succeeds exactly when an equal-value u64 amount exists and the precisions are at most 19 decimals apart; the result is the only such amount; past 19 decimals only zero has an equal and it is refused |
| AmountConversion.ConvertIff | service/src/amount_conversion.rs:127-191 | conversion answers `b` if and only if `b` has the same value within 19 decimals, so wrong results and wrong refusals are both excluded |
| AmountConversion.ConvertRoundTrip | service/src/amount_conversion.rs:127-191 | whatever converts, converts back to the original amount |
| AmountConversion.FeeMeaning | service/src/amount_conversion.rs:368-393 | the fee computes exactly below the overflow line at rates up to 100%, fee and net add up to the gross, and the net is the kept share rounded up |
| AmountConversion.NetOfSum | service/src/amount_conversion.rs:378-386 | netting two grosses apart gains at most one unit over netting them together and loses nothing |
| AmountConversion.PositiveGrossNetsSomething | service/src/amount_conversion.rs:368-393 | below 100% a gross nets at least one unit exactly when it is positive |
| AmountConversion.EstimateIsExact | service/src/amount_conversion.rs:454-485 | the closed-form estimate is already the exact boundary: net(g) <= M iff g <= estimate, for all g |
| AmountConversion.MaxGrossForNetAtBps | service/src/amount_conversion.rs:442-485 | every refusal and its cause; on success the result is the boundary of all grosses whose fee computes, and neither walking loop takes a step |
| BridgeRate.DestinationScaleMeaning | service/src/bridge_rate.rs:448-458 | the scale is exactly what one destination unit is worth in canonical units, and 1 for a destination at least as fine |
| BridgeRate.QuoteMeaning | service/src/bridge_rate.rs:198-250 | a quote succeeds exactly on the amounts that stay inside u64, conserves gross = fee + net + dust with dust below one destination unit, and its net is the largest multiple of the unit in the rounded-up kept share |
| BridgeRate.QuoteMonotone | service/src/bridge_rate.rs:230-250 | below a quotable amount everything is quotable and nothing nets more, so overflow only happens above every admissible amount |
| BridgeRate.QuotedNetConvertsExactly | service/src/bridge_rate.rs:230-250 | every net struck at the scale of a destination with up to 8 decimals converts exactly to its unit and back |
| BridgeRate.StruckQuoteVerifies | service/src/bridge_rate.rs:279-422 | a struck quote persisted and verified is accepted if and only if it is locked and all of stored gross_out, fee and net are the struck ones; then it returns the struck breakdown; unlocked it is always refused |
| BridgeRate.UnquotedVerifiesIff | service/src/amount_conversion.rs:423-440 | a row without a quote verifies if and only if its fee is the rounded-down share of its gross, within u64 and 100%, and fee and net add up to the gross; the answer is then the row's own figures |
| BridgeRate.QuotedVerifiesIff | service/src/bridge_rate.rs:310-350 | a row with a quote verifies if and only if the quote is locked and stored gross_out, fee and net are what its prices give |
| BridgeRate.QuoteRecords | service/src/bridge_rate.rs:252-308 | a quote records its prices, amount and times; its expiry is the sum, saturating, never wrapping |
| BridgeRate.FixedBookIsTheFeeRule | service/src/bridge_rate.rs:524-602 | the fixed book answers every route and at scale one strikes exactly the fee rule, with no dust and no breach |
| BridgeRate.LiveBookIsItsRates | service/src/bridge_rate.rs:524-602 | the live book refuses exactly what its rates refuse, strikes at their prices, and reports a breach exactly when they flag one |
| BridgeRate.FoldPricingSound | service/src/bridge_rate.rs:604-661 | for every answer of the book: unparked exactly when a quote was struck inside the band; each refusal parks under its own reason with no quote; a breach is recorded with its figures; any carried quote locked at the fold verifies to the stored breakdown and conserves the gross |
| BridgeRate.FoldPricesIff | service/src/bridge_rate.rs:636-661 | a final deposit cannot be priced only where the arithmetic refuses it: the fee at a refused rate, the quote at an answered one |
| QuoteInverse.BufferedLimitIff | service/src/bridge_rate.rs:713-721 | the buffered limit is the largest figure within the kept share of the limit, and 0 from a buffer of 100% on |
| QuoteInverse.MaxSourceForDestinationLimit | service/src/bridge_rate.rs:746-805 | refused exactly where not even zero can be quoted; the two early exits answer 0; otherwise exactly the amounts up to the result can be quoted within the buffered limit, over all of u64, in at most 64 iterations |
| QuoteInverse.RefusedIffNothingQuotes | service/src/bridge_rate.rs:753-765 | the search refuses exactly the arguments at which zero cannot be quoted, so never a gross that can |
| QuoteInverse.MaxSourceUnique | service/src/bridge_rate.rs:723-745 | the boundary is unique |
| QuoteInverse.MaxDeliversAUnit | service/src/bridge_rate.rs:742-805 | strictly inside u64 the net at the maximum is at least one destination unit, for every price pair, fee below 100% and scale up to 10^8 |
| QuoteInverse.MaxDeliversAUnitIff | service/src/bridge_rate.rs:742-745 | exactly when the documented promise of a deliverable maximum holds of the returned value |
| QuoteInverse.MaxAtTopDeliversNothing | service/src/bridge_rate.rs:742-745 | an input on which that promise fails: every u64 amount is quoted below one unit |
| QuoteInverse.OneUnitTooLarge | service/src/bridge_rate.rs:742-745 | an input on which it fails at the other end: one source unit exceeds the limit and the answer is 0 |
| QuoteInverse.SearchInClosedForm | service/src/bridge_rate.rs:746-805 | the binary search's answer as one expression of its arguments: just below the first amount rated past the limit or past overflow, capped at u64 |
| QuoteInverse.AboveMaxExceedsIff | service/src/bridge_rate.rs:738-740 | one unit above the maximum is quoted past the buffered limit exactly when the first amount rated past that limit is a quotable u64, and the maximum is then the amount just below it |
| QuoteInverse.AboveMaxMayOverflow | service/src/bridge_rate.rs:738-740 | an input on which one more unit cannot be quoted |
| QuoteInverse.InversesAgree | service/src/bridge_rate.rs:746-805 | at unit rate, scale 1 and no buffer the binary search and the closed form name the same amount |
| QuoteEconomics.QuoteNeverGains | service/src/bridge_rate.rs:198-250 | net times destination price never exceeds amount times source price |
| QuoteEconomics.NoValueFromHopping | service/src/bridge_rate.rs:198-250 | along any sequence of quotes at fixed rail prices value never increases; a path back to its rail returns at most its start |
| QuoteEconomics.SplittingBarelyPays | service/src/bridge_rate.rs:230-250 | n pieces net at most the unsplit net plus (n-1) + (scale-1), and at least it minus (n-1) + n(scale-1) |
| QuoteEconomics.OneBandBuffer | service/src/bridge_rate.rs:685-721 | admitted under buffer b and re-struck after a rise of at most b, the net stays within the full limit whenever limit * b^2 >= 10^4 (10^4 + b) scale, and below the overflow line the re-strike succeeds |
| QuoteEconomics.OneBandIff | service/src/bridge_rate.rs:702-721 | for every configuration: one band of buffer keeps every admitted, unflagged order payable (re-struck, within the limit), over all amounts and prices, if and only if nothing is admitted or the largest fitting amount grown by one band and one basis point still fits |
| QuoteEconomics.RoomSuffices | service/src/bridge_rate/live.rs:273-302 | where there is that room, every admitted order the book does not flag can be re-struck, within the limit |
| QuoteEconomics.NoRoomOvershoots | service/src/bridge_rate.rs:702-721 | wherever the condition fails, an order that is admitted, is not flagged and is not payable: past the limit, or past overflow |
| QuoteEconomics.MovementIff | service/src/bridge_rate/live.rs:338-376 | the measured movement is within a band exactly when the rate moved, up or down, by less than one basis point more than it |
| QuoteEconomics.InBandBoundsRise | service/src/bridge_rate/live.rs:338-376 | a movement the band lets through bounds the rise by one basis point more than the band |
| QuoteEconomics.OneBandBufferAtTheGate | service/src/bridge_rate/live.rs:273-302 | the buffer theorem against the rounded-down movement the live book really compares, with the same conclusion |
| QuoteEconomics.DefaultBufferSuffices | service/src/bridge_rate.rs:685-721 | with the default 2500 bps buffer and a limit of at least 21 destination units, an unflagged re-strike stays within the limit, and below the overflow line it succeeds |
| QuoteEconomics.OneBandCounterexample | service/src/bridge_rate.rs:702-706 | a limit of four units, a rise of exactly one band, a re-struck net of five units |
| QuoteEconomics.OneBandMayOverflow | service/src/bridge_rate.rs:702-706 | an unlimited cap, a rise of exactly one band, a re-strike that overflows |
| AdmittedOrder.AdmittedOrderLocksWithinLimit | service/src/ledger/mod.rs:3459-3566 | an admitted order observed within the band, wherever one band of buffer is enough, is locked at a net within the full destination limit and goes on confirming if nothing else is against it |
| DestinationAdmission.LimitsByRoute | service/src/api.rs:1061-1097 | route by route, which limit applies, in which unit, and when it counts as read |
| DestinationAdmission.DestinationAdmissibleFrom | service/src/api.rs:1161-1200 | unbounded exactly for uncapped destinations, known exactly when every input was read and zero can be quoted at them, and then the exact boundary |
| DestinationAdmission.EnforceDestinationBound | service/src/api.rs:4014-4048 | comparing the gross with the inverted maximum is the plain check: a positive gross is accepted iff one unit fits the buffered limit, the fee is below 100% and the quoted net is within the buffered limit; unread destinations are refused, a quotable gross never as unread; either answer carries the destination's exact capacity |
| QuoteLifecycle.NextInv | service/src/ledger/mod.rs:3245-3788 | every step (observe, late deposit, expire, orphan, finalize, park, both resumes, settle) keeps: a lock in force is the quote the row carries, an unquoted row is accounted for, and what was paid is right |
| QuoteLifecycle.SettlementPaysTheLatestLock | service/src/bridge_rate.rs:389-422 | in every run of those steps a payment is exactly the net the row stores and the net of the latest lock still in force; without a lock only a legacy row, or a refused fold that a recoverable hold outranked, is ever paid |
| QuoteLifecycle.ConfirmsIff | service/src/ledger/mod.rs:3332-3788 | an observed deposit goes on confirming exactly when the amount is the reserved one, a late reservation still fits, no hold applies, the rate is answered, and a quote it can strike breaches no band and grows no further than what is free; otherwise it is parked |
| QuoteLifecycle.BreachParks | service/src/ledger/mod.rs:3562-3564 | a band breach parks every deposit it can price, whatever the amount, capacity and hold |
| QuoteLifecycle.ParkedUnder | service/src/ledger/mod.rs:3332-3788 | each park carries its own reason, ranked as the service ranks them |
| QuoteLifecycle.FoldPayableIff | service/src/ledger/mod.rs:5156-5185 | a fold is payable at once exactly when nothing outranks the rate, the rate was answered inside the band and no gate blocks; a carried quote is locked |
| QuoteLifecycle.ResumeIff | service/src/ledger/mod.rs:4751-4788 | what an operator may resume, from the row alone; amounts and quote stay |
| QuoteLifecycle.ResumeOutOfBoundsIff | service/src/ledger/mod.rs:4139-4370 | an out-of-bounds release resumes exactly when it is locked and verifies and its payout, worth exactly the verified net, is reserved and within the live bounds |
| QuoteLifecycle.ParkedOutOfBoundsWaits | service/src/ledger/mod.rs:4418-4468 | a final row parked out of bounds cannot be settled, and resumes to exactly the row it was when the live bounds admit it |
| QuoteLifecycle.LateIsTimely | service/src/ledger/mod.rs:3332-3403 | a late deposit is treated exactly as a timely one as long as the capacity its expiry released is still there |
| QuoteLifecycle.NothingPaidBeforeFinality | service/src/ledger/mod.rs:4548-4596 | no run without a finalization pays a Goldcoin deposit |
| QuoteLifecycle.OrdinaryCoursePays | service/src/ledger/mod.rs:3459-3788 | observed with nothing against it, finalized and settled, a row is paid exactly what was locked, unless the lock floored everything away |
| QuoteLifecycle.ScaleIff | service/src/ledger/types.rs:886-903 | the scale is the whole ratio of a Solana-bound row's net to its destination amount, and 1 wherever there is none |
| QuoteLifecycle.RefusedFoldVerifies | service/src/ledger/mod.rs:5176-5240 | a refused fold's row passes verification, whatever else blocked it, and resumes exactly when a recoverable hold outranked its park and its route's resume finds the amount it asks for |
| QuoteLifecycle.RefusedFoldPaysIff | service/src/bridge_rate.rs:617-621 | some run pays a refused fold if and only if a recoverable hold outranked its park and, on a Solana-Robinhood route, it has a destination amount |
| QuoteLifecycle.AbsorbedLockVerifiesIff | service/src/ledger/mod.rs:3459-3566 | a re-reserved lock verifies at exactly the locked figures if and only if something is delivered or nothing was floored away |
| QuoteLifecycle.ScaleOverRuns | service/src/ledger/mod.rs:13443-13461 | over every run the scale read off the row is the one it started with if no lock floored the net to nothing, and 1 for good after one did |
| QuoteLifecycle.ScaleLost | service/src/ledger/mod.rs:13443-13461 | a run after which the row verifies at a net the mint cannot represent and reserves in the wrong unit |
| QuoteLifecycle.LockNeverOverdraws | service/src/ledger/mod.rs:3459-3566 | a lock adds to the reservation only what is free, and parks with the old amounts exactly when the struck payout's growth is not |
| QuoteLifecycle.ObservationNeverOverdraws | service/src/ledger/mod.rs:3332-3403 | with what a late deposit re-reserves, an observation holds no more than was held and free |
| QuoteLifecycle.UnabsorbedLockNeverVerifies | service/src/ledger/mod.rs:3459-3566 | a lock the reserve could not absorb is refused by verification |
| RouteAvailability.MaxAdmissibleNetExact | service/src/ledger/admission.rs:508-521 | a positive net is admitted if and only if it does not exceed the published maximum |
| RouteAvailability.BlockerIsFirst | service/src/ledger/admission.rs:410-436 | the evaluator admits exactly when no condition blocks, and otherwise reports the first-ranked one that does |
| RouteAvailability.MaxAdmissibleGross | service/src/api.rs:1790-1828 | the published gross maximum is admissible throughout, exact wherever the gross-up computes and 0 elsewhere |
| RouteAvailability.BuildRouteView | service/src/api.rs:1520-1586 | advertised exactly when the verdict is open and the destination's capacity is known; a reason exactly when not; an earlier reason is kept, the unknown capacity comes last |
| RouteAvailability.VerdictIsConjunction | service/src/api.rs:1684-1828 | the public verdict is open exactly when no gate, each written out in the figures read, is closed, and names a closed gate otherwise |
| RouteAvailability.OnchainPausedIff | service/src/api.rs:197-200 | the deposit pause stops exactly the Solana-sourced routes, the release pause the Solana-bound ones, the global pause both |
| RouteAvailability.VerdictNamesTheFirst | service/src/api.rs:1684-1828 | a closed verdict names the first-ranked closed gate |
| RouteAvailability.ClosingNeverOpens | service/src/api.rs:1684-1828 | closing any combination of gates never opens a route |
| RouteAvailability.EffectiveRoute | service/src/admin_api.rs:1993-2195 | available only if the public verdict is; the blockers are exactly the closed gates; the list is empty exactly when available; the primary reason is listed and is the public one whenever there is one |
| AdminActions.MutateFlags | service/src/admin_api.rs:2510-2694 | an accepted action sets exactly its own flag, a refused one moves none |
| AdminActions.OpenRouteIff | service/src/admin_api/guard.rs:142-167 | opening a route is accepted exactly when it has a row and the reserve it pays from is safe in its own figures |
| AdminActions.OpenAdmissionIff | service/src/admin_api/guard.rs:96-105 | opening admission is accepted exactly on a safe Goldcoin reserve |
| AdminActions.UnpauseRobinhoodIff | service/src/admin_api/guard.rs:218-258 | clearing the Robinhood pause is accepted exactly when the reserve covers what it owes and can fund the smallest transfer, or another operator switch holds the route closed |
| AdminActions.UnconditionalIff | service/src/admin_api.rs:2520-2694 | stopping, and clearing the other two pauses, needs only the row it writes |
| AdminActions.GateHysteresis | service/src/ledger/mod.rs:2336-2350 | over any series of readings the gate ends closed exactly when one fell below the buffer, or it began closed, and none since reached the reopen figure |
| AdminActions.ReadIsFlag | service/src/admin_api.rs:2520-2694 | the old value read is the flag itself, and for an accepted action the one it replaces |
| AdminActions.RefusalEffect | service/src/admin_api/guard.rs:50-71 | a refusal changes nothing but the automatic liquidity gate, and that exactly when a re-opening reaches and moves it |
| AdminActions.RefusalMayMoveTheAutomaticGate | service/src/ledger/mod.rs:2634-2666 | an input on which a refused re-opening closes the gate |
| AuditProtocol.NextInv | service/src/admin_api.rs:2425-2508 | every step of every operator, every quota tick and every movement of a reserve's figures keeps mutual exclusion, the holder's progress and the history's explanation of the durable state |
| AuditProtocol.AuditedHistory | service/src/admin_api.rs:2425-2508 | in every interleaving with failures and crashes: the log only gained the committed rows, the flags are the initial ones replayed through Success rows and quota pauses, every row records the value just before it, and only a call that returned success has a Success row |
| AuditProtocol.DurableChangesAreAudited | service/src/admin_api.rs:2425-2508 | an operator flag or the log changes only in a commit that appends one row telling the whole change, or in a quota pause; traffic moves figures only, and nothing else becomes durable |
| AuditProtocol.CommitIsAudited | service/src/admin_api.rs:2455-2496 | a commit makes durable either the whole accepted mutation with its Success row, or a Failure row and at most the automatic gate |
| AuditProtocol.ErrorsChangeNothingElse | service/src/admin_api.rs:2425-2508 | a step that ends an attempt in an error or a crash leaves the business state, up to the automatic gate |
| AuditProtocol.UnpauseIsAudited | service/src/quota.rs:64-99 | a reserve goes from paused to unpaused only in a commit of a Success unpause row for it that records `true` as the old value |
| AuditProtocol.RowsChain | service/src/admin_api.rs:2412-2416 | in every run each Success row records exactly what the latest writer of its flag wrote, or the initial value |
| AuditProtocol.EveryMomentIsRight | service/src/admin_api.rs:2440-2508 | at every moment of the history the row is its operator's own and records the flags of that moment |
| AdminLedger.EndingIsTheRuns | service/src/admin_api.rs:2440-2508 | the closed form of one call is where the step machine's uninterrupted run ends, for every storage behaviour |
| AdminLedger.OneAttempt | service/src/admin_api.rs:2440-2508 | Ok exactly when storage held, the row was appendable, the old value readable and the mutation accepted, and then both became durable together; an error leaves the database or adds one Failure row naming it |
| AdminLedger.RefusalsLeaveARow | service/src/admin_api.rs:2425-2508 | while storage holds, every refusal of a signed and noted attempt leaves exactly one Failure row; only a reserve without a row ends an attempt unrecorded |
| AdminLedger.Ledger.AuditedMutation | service/src/admin_api.rs:2440-2508 | the begin / read / mutate / append / commit code ends as that closed form says; inside a leaked scope it refuses |
| AdminLedger.Ledger.Apply | service/src/admin_api.rs:2520-2694 | the mutation closures, guards included, on the open scope only |
| AdminLedger.Ledger.RequireReserveSafe | service/src/admin_api/guard.rs:50-71 | the three reserve safety checks and the gate transition they write |
| AdminLedger.Ledger.EvaluateLiquidityGate | service/src/ledger/mod.rs:2634-2666 | the hysteresis decision and its transition on the Goldcoin reserve; any other reserve answers open |
| AdminLedger.Ledger.EnforceRollingVolumeQuota | service/src/quota.rs:64-99 | pauses exactly when the remaining quota is below the smallest transfer, never unpauses, appends no row; it is the machine's quota tick |
| Fees.NewChainPolicy | service/src/chain_policy.rs:264-315 | accepted exactly when the chain is governed, the rate at most 9999 bps and both limits positive and within the daily one |
| Fees.ChainPolicies.Insert | service/src/chain_policy.rs:404-420 | a second policy for a chain is refused and changes nothing |
| Fees.RouteFees.Insert | service/src/fees.rs:203-227 | a duplicate or a rate above 9999 bps is refused and changes nothing |
| Fees.RouteFees.CoversRequiredRoutes | service/src/fees.rs:275-292 | Ok exactly when every required route is priced, otherwise the first unpriced one in registry order |
| Fees.ParseIff | service/src/routes.rs:418-431 | parsing accepts exactly the six route names and inverts naming |
| Fees.NameSpellsTheEnds | service/src/routes.rs:148-195 | a route is named after the chain it starts and the chain it ends on |
| Routes.RouteShape | service/src/routes.rs:190-415 | no route stays on its chain; the contract models exactly the routes with a Robinhood leg; the pair that may go unpriced never touches Goldcoin |
| Fees.ReadTableIff | service/src/config.rs:2844-2861 | a section reads exactly when every name is a route, named once, with a rate in range, and the table then says precisely what the section says |
| Fees.CarryForward | service/src/config.rs:2805-2830 | the fallback inserts never fail |
| Fees.ResolveRouteFees | service/src/config.rs:2794-2875 | entry faults first, completeness after, and no fallback once a section is stated |
| Fees.LoadedRatesAreUsable | service/src/config.rs:2794-2875 | every enabled route is priced at 9999 bps at most, its fee computes short of overflow, and every positive gross nets at least one unit |
| Fees.FallbackPricing | service/src/chain_policy.rs:437-442 | without a section only an enabled Solana-Robinhood route fails the load; the Goldcoin-Solana routes price at 300 bps under any policy, and a Robinhood policy prices exactly its own two |
| Pagination.ParamsAcceptedIff | service/src/api.rs:5567-5590 | parameters are accepted exactly when the cursor is blank or spells an i64 and the limit is blank or spells a positive u32, and as what they spell: from the start, 50 rows, at most 200 |
| Pagination.LimitHonoured | service/src/api.rs:5567-5590 | without parameters 50 rows from the start; a decimal limit is honoured, clamped at 200 and refused at 0 |
| Pagination.CursorRoundTrip | service/src/api.rs:4918-4923 | every row id survives being written as a cursor and parsed back |
| Pagination.PageIsTopSlice | service/src/ledger/mod.rs:9099-9137 | a page is the newest rows below the cursor, newest first |
| Pagination.FollowCursors | service/src/api.rs:653-664 | following next_cursor terminates and returns every row present at the start exactly, newest first, whatever is inserted meanwhile, in one request more than the full pages |
| Pagination.NewestFirstIsOnceDescending | service/src/api.rs:4909-4934 | that listing is strictly descending in id and has each row exactly once |
| FormDecode.PercentDecode | service/src/admin_api.rs:4622-4651 | the loop computes the unescaped bytes, refuses a malformed escape and non-UTF-8 output, and never lengthens |
| FormDecode.ValidIffText | service/src/admin_api.rs:4648-4650 | output is accepted as UTF-8 exactly when it encodes a sequence of Unicode scalar values |
| FormDecode.DecodeInvertsEncode | service/src/admin_api.rs:4622-4651 | every byte string in every per-byte choice of literal, plus or escape decodes to itself |
| FormDecode.DecodesIffSpelled | service/src/admin_api.rs:4622-4651 | exactly the spellings of a byte string decode to it |
| FormDecode.AsciiSpelling | service/src/admin_api.rs:4626-4643 | the digits and signs of the spellings are the ASCII ones, in either case |
| FormDecode.StandardIffNoSignedEscape | service/src/admin_api.rs:4622-4651 | a value is a standard spelling (section 2.1 of RFC 3986, plus for space) exactly when it decodes and holds no percent sign followed by a plus sign |
| FormDecode.SignedEscapeAccepted | service/src/admin_api.rs:4630-4640 | the escape `%+5` decodes to the byte 5 |

## Left out

- HTTP routing, JSON views, authentication, chain reads, key files and remote signers: inputs here, or I/O without an invariant.
- Live price smoothing and feed staleness: the live book is an arbitrary answer, a refusal or prices with a band flag.
- The 18-decimal Robinhood conversion and the remaining rolling quota: their results are inputs.
- The wallet and burst windows, and the operator hold that blocks a resume: an arbitrary hold, and a resume that does not happen.
- The settlement-time bounds check itself: a final row may be parked out of bounds at any time, and its resume reads arbitrary live bounds.
- The park of a row bound to a foreign Robinhood contract, cancellation, refunds and closures: ways for a row to leave without a payment.
- The published user maximum: the smaller of two configured figures, an input here.
- Storage casts to i64, note trimming, timestamps of rows, error text.
- The audited actions besides pause, reserve admission and route admission: they run through the same protocol.
- Rows whose state changes while a state-filtered listing is walked: the walked table is the filtered one and only grows.
- The order of the operator's blocker list beyond its contents and its first entry's role.
- Failing ledger reads inside the operator view: the view then returns an error.
- The refusals for routes without settlement machinery: all six routes have it.
- The order of a `[fees]` section is the order its entries are given in; the sorted order of its keys only decides which of several faults is named.
- AuditProtocol.ErrorsChangeNothingElse: allows the automatic liquidity gate's transition, because the code makes it durable with a Failure row.
