# A verified model of the point-of-sale ledger

This project models the part of the system where money and stock are decided, and proves properties of it
for every input, every run and every interleaving the model allows:

- **Stock and sales.** `Stock`, `Conflicts`, `Ledger` and `LedgerSafety` are a state machine over the committed
  database: any number of concurrent sale, void, refund, receive and adjust requests, interleaved at every read, row
  lock, unique-key check and commit. `LedgerTheorems` states what every run keeps, `LedgerRetries` how often a receive
  retries, and `LedgerAnswers` what each step answers, said of the database itself. `StockStore` is the services' own
  step-by-step form, a class whose methods perform exactly the machine's transitions; `SaleSpec` and `SaleOutcome` say
  what its requests do in the values of the draft, the rows and the levels.
- **Totals.** `Money`, `Totals` and `TotalsProofs` are the cart engine over exact integers (rates in ten-thousandths,
  quantities in milli-units, ties rounded away from zero); `TotalsSpec` fixes its results by rules of their own.
- **Shifts.** `Shifts`, `ShiftDesk` and `ShiftTheorems` are shifts, cash movements and the X/Z totals, recomputed from
  sale rows and compared with a drawer counted as things happen; `ShiftSpec` and `ShiftAnswers` say what the totals and
  each request are in the rows' own columns.
- **Reports.** `Calendar` and `BusinessDay` are the civil calendar and business-day windows; `Grouping`,
  `SalesReports` and `Conservation` the bucketed reports, the overview and the leaks remainder; `NamedDiscounts` the
  leaks report's figures per discount; `Attribution` the order discount recovered from stored columns;
  `MovementLedger` the merged, paginated movement ledger; `Csv` the export format and a reader of section 2 of RFC
  4180. `DaySpec` and `ReportSpec` say what days and buckets hold in milliseconds and stored columns.
- **Tenancy client.** `SoftDeleteReads` and `SoftDeleteWrites` are the recursive rewrites of query and write trees
  against a small table semantics, over the columns of `SoftDeleteColumns`. `SoftDeleteFrames` and `SoftDeleteApart`
  bound what a write can touch; `SoftDeleteOrder` and `SoftDeleteOrderProofs` say when a delete may be moved past the
  operations written around it, `SoftDeleteWriteProofs` what the rewritten tree means, `SoftDeleteErasure` when it
  erases rows, and `SoftDeleteNames` when a store that really deletes would have accepted it. `SoftDeleteClient` is
  the client's own mutations, refining such a store; `ReplaceSets` the diffs that feed the write rewrite;
  `UniqueColumns` the database's unique indexes, which `UniqueProofs` sets those diffs against. `WriteSpec`,
  `ClientAnswers` and `SubmissionAnswers` read each request and submission off the rows it leaves.
- **Lockout.** `Lockout` and `LockoutTheorems` are the failed-attempt counters and their rate bound.

`Common` and `Decimal` hold sums, filters and decimal text. `dafny verify dfyconfig.toml` checks everything.

## Where the code and its documentation disagree

- `mergeDeletedNull` says it respects an explicit `deletedAt` of the caller. On a top-level read the tenant scope is
  ANDed in first, so the caller's condition is one level down, the filter is still added, and asking for deleted rows
  finds none (`SoftDeleteReadProofs.ExplicitDeletedAtFindsNothing`). On nested loads the comment holds.
- Dropping deleted children from the result of the unrewritten query is the same as the rewritten query except where a
  nested limit cuts deleted rows together with live ones; `SoftDeleteReadProofs.RewrittenLoadIsPruned` gives the exact
  condition.
- The upsert branch says it excludes deleted rows as delete and update do. Delete does; update and updateMany look
  deleted rows up as well, so an update can answer for, and bring back, a deleted row
  (`SoftDeleteClientProofs.UpdateRevives`).
- The design has every nested delete rewritten to a soft delete or refused
  (docs/superpowers/plans/2026-08-19-be-foundation.md:295). The walk enters neither an upsert nor a to-one update
  written without a `where`, so a delete below one of them erases rows (`SoftDeleteErasure.ToOneUpdateErases`,
  `UpsertErases`). A rewritten tree whose every entry hits a row erases nothing if and only if no delete lies there
  (`SoftDeleteErasure.ErasesNothingExactly`).
- The rewrite moves deletes: a stamp runs where `update` or `updateMany` is written, or last. So `{ deleteMany: {},
  create: [v] }` stamps v with the old rows (`SoftDeleteOrderProofs.ReplaceAllLosesTheNew`). An object keeps its
  meaning, with any of its entries left out, if and only if no delete is moved across an entry that makes or brings in
  a row it matches, takes one out, or makes one it names (`SoftDeleteOrderProofs.InOrderExactly`). Deletes of named
  rows may stand anywhere ahead of creates, and the repository's own diffs are always in order
  (`ReplaceSetProofs.DiffFaithful`).
- A nested update or delete finds stamped children: an update that deletes a deleted variant once more, or renames it,
  is accepted (`SoftDeleteClientProofs.DeletedChildAccepted`). `SoftDeleteClientProofs.UpdateAgreesExactly` says when
  an update answers as the deleting store.
- A nested upsert takes a stamped row for an existing one, so it does not mean what it would if deletes really deleted
  (`SoftDeleteWriteProofs.UpsertParts`). A nested `delete: true` on a to-one relation is rewritten to an update the
  database client refuses (`BareToOneDeleteRefused`).
- `buildVariantReplaceSet` accepts submissions the database then refuses. The unique indexes on (product, sku) and
  (product, barcode) cover stamped rows, and updates are checked one at a time. So a SKU any row of the product holds
  cannot go to a new variant (`UniqueProofs.HeldSkuRefused`, with an input in `ReplacedSkuRefused`), and two variants
  cannot trade theirs (`TradedSkuRefused`). `UniqueProofs.VariantsReplaced` gives the exact condition.
- The parts of the VAT split are all non-negative, and exempt sales at most the discounted subtotal, exactly when the
  lines not sold at the SC/PWD price come to at least zero (`TotalsProofs.PartitionSignsExactly`). The draft DTO lets
  them come to less (`NegativeGrossBreaksPartition`).
- A CSV section whose column list or row is empty reads back as one empty field, so the round trip is exact if and
  only if there is none (`Csv.RoundTripExact`).

## Model

| member | source | states |
|---|---|---|
| LedgerTheorems.StockConserved | src/pos/sales/sales.service.ts:396-479 | in every interleaved run each (branch, product, variant) level is its initial level plus its movements, and never negative, though levels drop once per deduplicated key and movements are written per line |
| LedgerTheorems.PostedAtMostOnce | src/pos/sales/sales.service.ts:121-201 | no two submissions of one run both post the same sale id |
| LedgerTheorems.SoldExactlyOnce | src/pos/sales/sales.service.ts:414-479 | the log holds each stored sale's own sale movements exactly once and none for a sale that is not stored, so a retried id decrements nothing twice |
| LedgerTheorems.AnswersAreTheStoredSale | src/pos/sales/sales.service.ts:129-200 | every submission answered with a sale gets the stored one (fast path, re-check under the lock, or unique violation), also after a later void or refund, which change only the status columns |
| LedgerTheorems.CompensatedAtMostOnce | src/pos/sales/sales.service.ts:232-344 | in every continuation of every run no sale is lost or rewritten, and a voided or refunded one never changes again |
| LedgerTheorems.CompensationCancels | src/pos/sales/sales.service.ts:346-391 | per key a sale's movements sum to minus what it sold while completed and to zero once voided or refunded, whatever came between |
| LedgerTheorems.ConflictIsGenuine | src/pos/sales/sales.service.ts:414-429 | a stock-conflict answer means some key is short among the rows read, at current levels, and that a concurrent posting of the same sale took none of what was read |
| LedgerTheorems.RestoreFindsEveryLevel | src/pos/sales/sales.service.ts:346-391 | a void or refund never has to create a level: every level it returns goods to exists |
| LedgerTheorems.SerialCallIsARun | src/pos/sales/sales.service.ts:394-479 | the plain, uninterrupted completeSale is one of the machine's runs: same database, same answer |
| LedgerAnswers.RefusedForStock | src/pos/sales/sales.service.ts:414-429 | in every run the conflict pass refuses a sale only when something it asks for is short in the database at that moment or had no level when the lock query ran, and what it lets through the branch has in full; said of lines and levels, not of the rows locked |
| LedgerAnswers.UniqueKeysHold | prisma/schema.prisma:608 | in every run no two stored sales share a terminal's receipt number or a payment id |
| LedgerAnswers.EndedHoldNothing | src/pos/sales/sales.service.ts:178-201 | in every run a transaction that has answered, failed, collided or been abandoned holds no row and no sale lock |
| LedgerAnswers.FastPathExactly | src/pos/sales/sales.service.ts:129-133 | the fast path answers with the stored sale iff the caller's own branch has it |
| LedgerAnswers.RecheckExactly | src/pos/sales/sales.service.ts:419-425 | under the locks a stored id is answered with its sale |
| LedgerAnswers.InsertExactly | src/pos/sales/sales.service.ts:446-449 | an insert loses iff a stored sale has its id, its terminal's receipt number or its payment's id |
| LedgerAnswers.CollisionExactly | src/pos/sales/sales.service.ts:186-197 | the loser is answered with its own branch's stored sale, or refused |
| LedgerAnswers.CommitExactly | src/pos/sales/sales.service.ts:431-479 | a commit stores the draft column by column, logs one movement per line that takes stock and lowers each level by what the lines ask of it, and nothing else |
| LedgerAnswers.RestoreStartsExactly | src/pos/sales/sales.service.ts:323-391 | a void or refund starts iff the sale is the branch's and completed, with each of its sale movements mirrored once under its own kind |
| LedgerAnswers.RestoreCommits | src/pos/sales/sales.service.ts:257-269 | it commits those movements and that sale's status and refund shift |
| LedgerAnswers.ReceiptCommits | src/portal/stock/stock.service.ts:84-128 | a receipt commits its movements and raises each level by theirs |
| LedgerAnswers.AdjustExactly | src/portal/stock/stock.service.ts:144-196 | an adjustment sets one level and logs the difference |
| LedgerSafety.StepKeepsInv | src/pos/sales/sales.service.ts:557-587 | the ledger invariant (levels match the log, sales match their movements, locked rows keep the values read, one poster per id) is kept by every step of every transaction |
| LedgerSafety.RunKeepsInv | src/pos/sales/sales.service.ts:394-479 | the invariant holds after every run |
| LedgerSafety.WriteLevelStep | src/portal/stock/stock.service.ts:256-271 | writing a receipt's next level, or losing its create to another request and starting over or failing, keeps the ledger invariant |
| LedgerRetries.LostCreatesAreBounded | src/portal/stock/stock.service.ts:256-271 | in every run a receive retries at most twice and at most once per level missing when it began, and with two or fewer missing it never fails for losing a create, however many requests create levels beside it |
| LedgerRetries.LosesOutExactly | src/portal/stock/stock.service.ts:256-271 | two is the exact number: while no row is locked, some run makes a receive fail for losing creates iff more than two of its levels are missing |
| Stock.MovesMatchDecrement | src/pos/sales/sales.service.ts:404-463 | the movements written per line sum, per key, to minus what the deduplicated decrement takes |
| Stock.PostSaleInv | src/pos/sales/sales.service.ts:434-475 | posting a covered sale keeps levels equal to the log and non-negative |
| Stock.SoldMovesOf | src/pos/sales/sales.service.ts:346-372 | the movements restoreStock reads for a completed sale are exactly the ones its lines wrote |
| Stock.CompensateInv | src/pos/sales/sales.service.ts:346-391 | mirroring them keeps every level equal to its log |
| Stock.ReceiveInv | src/portal/stock/stock.service.ts:84-128 | receiving keeps every level equal to its log and every sale's movements untouched |
| Stock.AdjustInv | src/portal/stock/stock.service.ts:144-196 | an absolute set with the difference as its movement keeps every level equal to its log |
| Stock.SaleNetMovement | src/pos/sales/sales.service.ts:232-391 | a sale's net movement per key, by status |
| Conflicts.DetectConflicts | src/pos/sales/sales.service.ts:589-621 | the loop over claimed totals reports exactly the short lines, in order, with what was available |
| Conflicts.PassIsPerKeyCheck | src/pos/sales/sales.service.ts:589-621 | the cumulative per-line pass is empty iff for every key the total wanted is at most the available |
| Conflicts.ConflictsAreSuffix | src/pos/sales/sales.service.ts:589-621 | conflicts of one key form a suffix of that key's lines |
| Conflicts.WantedRowExists | src/pos/sales/sales.service.ts:431-444 | "level not found" cannot follow an empty pass, because quantities are positive |
| StockStore.Store.WantedMilli | src/pos/sales/sales.service.ts:404-412 | the map holds, per deduplicated key, the sum of that key's line quantities |
| StockStore.Store.DecrementLevels | src/pos/sales/sales.service.ts:431-449 | each level drops by its key's total and no other level changes |
| StockStore.Store.LogSaleMoves | src/pos/sales/sales.service.ts:451-463 | one negative movement per tracked line is appended |
| StockStore.Store.Persist | src/pos/sales/sales.service.ts:396-479 | the transaction body, said of the database before and after: a stored id is returned; if the branch lacks what some line asks, exactly the lacking lines are reported, each with its level; a taken receipt number or payment id is refused; otherwise the sale is stored and logged and the levels lowered, line by line |
| StockStore.Store.CompleteSaleCall | src/pos/sales/sales.service.ts:121-201 | replay iff the branch has the id; else rejection without effect iff the draft fails a check, with the first failing check as the reason; else the transaction body |
| SaleOutcome.PassIsGenuine | src/pos/sales/sales.service.ts:557-621 | with the rows the lock query reads, the pass reports exactly the lines the branch lacks stock for, variants included, and is empty iff it lacks nothing |
| StockStore.Store.RestoreStock | src/pos/sales/sales.service.ts:346-391 | the loop appends each of the sale's own movements negated, once and in order, and raises each level by what the sale took of it |
| StockStore.Store.VoidSale | src/pos/sales/sales.service.ts:232-269 | accepted iff a reason is given and the sale is the branch's, completed and of the open shift; then its status is voided, its movements are mirrored and each level regains what it took, otherwise nothing changes |
| StockStore.Store.RefundSale | src/pos/sales/sales.service.ts:278-320 | accepted iff a reason is given and the sale is the branch's and completed; then the same, with the refund shift set only inside the sale's own open shift |
| StockStore.Store.AssertNoDuplicateLines | src/portal/stock/stock.service.ts:273-284 | passes iff no two lines name one product and variant |
| StockStore.Store.AddToLevel | src/portal/stock/stock.service.ts:336-356 | find-or-create: the level grows by the delta from zero if absent |
| StockStore.Store.Receive | src/portal/stock/stock.service.ts:71-128 | all lines or none, iff none repeats and all are valid: each (branch, product, variant) level grows by the quantities of the lines that name it, and movement i is line i's product, variant and quantity under the operation's id |
| StockStore.Store.Adjust | src/portal/stock/stock.service.ts:130-207 | the level becomes the given quantity, no other changes, and the one movement logged is the difference under its own id |
| SaleRecords.CheckedDraftIsPosted | src/pos/sales/sales.service.ts:135-176 | a draft that passes every check yields a row with engine-computed totals, checked payment and the terminal's open shift |
| SaleSpec.PaymentAcceptedExactly | src/pos/sales/sales.service.ts:723-744 | a payment passes iff it is of the total and, in cash, tenders at least that with the exact change; and which failure is reported |
| SaleSpec.RejectedExactly | src/pos/sales/sales.service.ts:135-176 | for each reason, a draft is rejected with it iff it is the first check that fails |
| SaleSpec.SaleIsStored | src/pos/sales/sales.service.ts:481-554 | every stored column and every item's columns are the draft's: quantities, prices, costs, variants, discounts and their ids, payment, receipt number |
| SaleRecords.StoredVatSplits | src/pos/sales/sales.service.ts:512-536 | the stored tax column is the VAT contained in the stored total less the stored exempt sales, and lies between zero and it |
| SaleRecords.PaymentCoversSale | src/pos/sales/sales.service.ts:723-744 | the one payment of a posted sale equals its net sales plus service charge |
| Attribution.FindLineAt | src/pos/sales/sales.service.ts:491-500 | with distinct line ids the first-match lookup finds each line's own totals |
| Attribution.SaleAttribution | src/portal/analytics/reports/leaks.sql.ts:92-104 | per sale: discount minus (line discounts minus SC/PWD) is the engine's order discount, and the SQL line nets are net sales plus it |
| Attribution.AttributionRecovered | src/portal/analytics/reports/line-money.sql.ts:23-40 | the same over any set of sales |
| Money.HalfUp | src/common/totals/money.ts:1-3 | the result is the nearest integer, ties away from zero, with the sign of the quotient |
| Money.HalfUpUnique | src/common/totals/money.ts:1-3 | that condition determines the result |
| Money.HalfUpMonotone | src/common/totals/money.ts:1-3 | rounding preserves order |
| TotalsProofs.LineNetIsGrossLessBest | src/common/totals/totals.ts:39-69 | for any gross a line's net is gross minus the larger of zero, promo and SC/PWD discount |
| TotalsSpec.EngineExactly | src/common/totals/totals.ts:34-115 | a result is the engine's iff every line and total is the one the rules fix, in nearest-integer terms: percent and fixed discounts, SC/PWD price, what applies, order discount on the rest, service charge of dine-in, contained VAT |
| TotalsSpec.DiscountTaken | src/common/totals/totals.ts:28-32 | a percent discount takes the nearest centavo to base x value / 100 and at most the base, a fixed one the lesser of its value and the base, and nothing of a base that is not positive |
| TotalsProofs.NegativeGrossUndiscounted | src/common/totals/totals.ts:28-69 | a line whose gross is not positive gets no discount |
| TotalsProofs.Partition | src/common/totals/totals.ts:71-101 | vatable + VAT + exempt = total for every cart |
| TotalsProofs.PartitionSignsExactly | src/common/totals/totals.ts:71-101 | for every cart and tax rate below 100%: vatable and VAT are non-negative and exempt lies between zero and the discounted subtotal iff the lines not sold at the SC/PWD price come to at least zero |
| TotalsProofs.PartitionNonNegative | src/common/totals/totals.ts:71-101 | with no negative line all three parts are non-negative and exempt is at most the discounted subtotal, under any order discount |
| TotalsProofs.NegativeGrossBreaksPartition | src/pos/sales/dto/sale-draft.dto.ts:42-45 | a cart of one line whose negative modifier makes vatable sales negative |
| TotalsProofs.DiscountedSplit | src/common/totals/totals.ts:71-89 | subtotal less all discounts is the exempt nets plus what the capped order discount leaves |
| TotalsProofs.RemainderMonotone | src/common/totals/totals.ts:28-32 | a larger base never leaves a smaller remainder, for capped percent and fixed discounts of any value |
| TotalsProofs.OrderIndependent | src/common/totals/totals.ts:34-116 | permuting the lines changes no aggregate |
| TotalsProofs.AppendNeverLowers | src/common/totals/totals.ts:71-94 | appending a line of non-negative gross never lowers the total, in any cart |
| TotalsProofs.AppendNeverRaises | src/common/totals/totals.ts:71-94 | appending one of non-positive gross never raises it |
| TotalsProofs.ScPwdNetBound | src/common/totals/totals.ts:42-47 | an SC/PWD net is within 9/10 centavo of 0.8 gross / (1 + rate) |
| TotalsProofs.ScPwdNetMonotone | src/common/totals/totals.ts:42-47 | and monotone in gross |
| TotalsProofs.VatBound | src/common/totals/totals.ts:96-101 | VAT is within (1 + rate)/2 centavos of rate times vatable sales |
| TotalsProofs.SubtotalBound | src/common/totals/qty.ts:19-21 | an n-line subtotal is within n/2 centavos of the unrounded sum |
| ShiftTheorems.StepKeepsInv | src/pos/shifts/shifts.service.ts:139-242 | distinct shifts, one open shift per terminal, every sale in a shift of the terminal that rang it |
| ShiftTheorems.ZReportFrozen | src/pos/shifts/shifts.service.ts:210-314 | once a shift closes, no later request changes its row or any field computeTotals would return for it |
| ShiftTheorems.StoredExpectedHolds | src/pos/shifts/shifts.service.ts:210-242 | the expected cash stored at close stays what the totals report in every continuation |
| ShiftTheorems.ExpectedCashIsTheDrawer | src/pos/shifts/shifts.service.ts:257-314 | in every run the recomputed expected cash of every shift equals the drawer counted along the way: the float, cash in and out, each cash draft's total as rung, and taken back by voids and refunds |
| ShiftTheorems.ByMethodPartitionsGross | src/pos/shifts/shifts.service.ts:263-285 | in every run the by-method totals sum to the gross |
| ShiftTheorems.SoldOrVoided | src/pos/shifts/shifts.service.ts:257-314 | counts and amounts of a shift's sales split exactly into sold and voided |
| ShiftTheorems.OnlyTheRingingTerminalVoids | src/pos/sales/sales.service.ts:248-256 | in every run an accepted void comes from the terminal that rang the sale, while its shift is open |
| ShiftDesk.Desk.OpenShiftCall | src/pos/shifts/shifts.service.ts:139-169 | opens iff the terminal has no open shift |
| ShiftDesk.Desk.AddCashMovement | src/pos/shifts/shifts.service.ts:171-202 | appends to the open shift iff there is one and a reason is given |
| ShiftDesk.Desk.SumByMethod | src/pos/shifts/shifts.service.ts:257-285 | the accumulation loop holds, per method, the sum of the totals of the sales paid by it |
| ShiftDesk.Desk.ComputeTotals | src/pos/shifts/shifts.service.ts:257-314 | every field is a sum or count over the shift's rows by their own status, shift, refund shift and first payment, and the moves by their direction |
| ShiftDesk.Desk.CloseCall | src/pos/shifts/shifts.service.ts:210-242 | closing stores the counted cash and the expected cash, which is the float plus cash sales less cash refunds plus cash in less cash out, and reports their difference |
| ShiftSpec.TotalsOfAre | src/pos/shifts/shifts.service.ts:257-314 | the totals compared above are those sums |
| ShiftAnswers.RequestIs | src/pos/shifts/shifts.service.ts:139-242 | what each request, open, cash movement, sale, void, refund and close, changes, in its own values, and that it changes nothing else |
| Calendar.EcmaDayFromYear | src/portal/analytics/scope/business-day.ts:35-45 | the calendar's year starts are DayFromYear of section 21.4.1 of ECMA-262 |
| Calendar.CivilUnique | src/portal/analytics/scope/business-day.ts:28-53 | a day number has one civil date |
| BusinessDay.BusinessDaySeries | src/portal/analytics/scope/business-day.ts:55-66 | the loop produces the names of exactly the days from `from` to `to` |
| BusinessDay.StartThenDayOf | src/portal/analytics/scope/business-day.ts:35-53 | businessDayOf(businessDayStartUtc(d)) = d for every real date from year 100 and any day start |
| BusinessDay.DayIsItsWindow | src/portal/analytics/scope/business-day.ts:35-53 | an instant is on a day iff it lies in the 24 hours from that day's start |
| BusinessDay.DaysAbut | src/portal/analytics/scope/business-day.ts:69-99 | one day is the next one's predecessor iff its window ends where the other's starts |
| BusinessDay.AddDaysIs | src/portal/analytics/scope/business-day.ts:95-99 | addDays names exactly the date that many days on |
| BusinessDay.RangeMatchesSeries | src/portal/analytics/scope/business-day.ts:55-81 | an instant lies in the range iff its business day is in the series |
| BusinessDay.SeriesEnds | src/portal/analytics/scope/business-day.ts:55-66 | the series starts at `from` and ends at `to` |
| BusinessDay.SeriesDistinct | src/portal/analytics/scope/business-day.ts:55-66 | it repeats no day |
| BusinessDay.SeriesGapFree | src/portal/analytics/scope/business-day.ts:55-66 | consecutive entries are consecutive days |
| BusinessDay.PreviousPeriodIsRange | src/portal/analytics/scope/business-day.ts:83-92 | the comparison period is the window of the same number of whole business days just before |
| BusinessDay.NameIdentifiesDay | src/portal/analytics/scope/business-day.ts:47-53 | no day of any year shares its name with another day that has a real date from year 100 |
| DaySpec.DayStartIs | src/portal/analytics/scope/business-day.ts:28-45 | for every string: a dash-separated date starts at the millisecond its digits, the day start and the eight hours of Manila fix, months past the year and two-digit years included; anything else is refused |
| DaySpec.DayOfInstant | src/portal/analytics/scope/business-day.ts:47-53 | and an instant is on that day iff it is in those 24 hours |
| DaySpec.MonthsAre | src/portal/analytics/scope/business-day.ts:35-45 | month starts and lengths by a closed form of their own |
| Grouping.GroupingConserves | src/portal/analytics/reports/sales-series.sql.ts:27-58 | the groups of a GROUP BY query sum to the rows it read |
| Grouping.GroupingExact | src/portal/analytics/reports/sales-series.sql.ts:27-58 | and each key carries its own rows' amount, listed or not |
| Grouping.CoarserBuckets | src/portal/analytics/reports/sales-series.sql.ts:64-84 | a coarser bucket is the sum of the finer ones it contains |
| SalesReports.MergeGroups | src/portal/analytics/sales/sales-report.service.ts:102-134 | the accumulation map carries, per key, the sum over all businesses' groups of that key |
| SalesReports.Heatmap | src/portal/analytics/sales/sales-report.service.ts:77-100 | one entry per day of the series, each with exactly that day's merged sales, zero where none |
| SalesReports.FillSlots | src/portal/analytics/sales/sales-report.service.ts:160-192 | each fixed slot holds its key's merged sales |
| SalesReports.AggregateOfCompleted | src/portal/analytics/reports/sales-aggregate.sql.ts:27-49 | every field of the one-pass conditional aggregate (gross, discounts, service, completed, voided, refunded) is a sum or count over the rows of that status |
| SalesReports.Totals.AddRows | src/portal/analytics/overview/overview.math.ts:56-72 | every running total, the four costed and uncosted ones included, grows by the aggregate's field of the same meaning |
| SalesReports.Overview | src/portal/analytics/overview/overview.math.ts:56-76 | over any list of businesses gross, net, service charge and the three counts are the sums over their rows of that status, and costed lines, revenue, cost and uncosted revenue the sums over their completed lines with and without a cost |
| ReportSpec.OverviewIs | src/portal/analytics/reports/sales-aggregate.sql.ts:27-49 | those sums are of the stored columns of the sales made in the businesses' branches and windows, by status |
| ReportSpec.OverviewLines | src/portal/analytics/reports/sales-aggregate.sql.ts:75-99 | and the line figures of their items: revenue the nearest centavo to quantity x (price + modifiers) less the discount, cost the nearest to quantity x unit cost |
| Conservation.RevenueSplitConserves | src/portal/analytics/reports/sales-aggregate.sql.ts:75-100 | costed and uncosted revenue over all businesses add up to their net sales plus the order discounts the engine computed |
| Conservation.HeatmapConserves | src/portal/analytics/sales/sales-report.service.ts:77-100 | the zero-filled days sum to the overview's net sales and count, for businesses with differing day starts |
| Conservation.MergedMapConserves | src/portal/analytics/sales/sales-report.service.ts:102-158 | day, week and month trend and order types sum to the overview's net sales and count |
| Conservation.GroupsConserve | src/portal/analytics/sales/sales-report.service.ts:194-252 | branch totals, listed without merging, sum to the overview's net sales and count |
| Conservation.HoursConserve | src/portal/analytics/reports/sales-series.sql.ts:124-138 | the 24 slots sum to the overview's net sales and count |
| Conservation.WeekdaysConserve | src/portal/analytics/reports/sales-series.sql.ts:145-155 | the 7 weekday slots sum to the overview's net sales and count |
| Conservation.BucketExact | src/portal/analytics/reports/sales-series.sql.ts:18-155 | each bucket holds exactly the net, and the number, of the completed sales its businesses file under it |
| ReportSpec.HeatmapDay | src/portal/analytics/reports/sales-series.sql.ts:41-51 | a heatmap day holds the net and the number of the completed sales of the scope made in its 24 hours, by each business's own day start |
| ReportSpec.HourSlot | src/portal/analytics/reports/sales-series.sql.ts:124-138 | an hour slot holds those made in that hour of Manila's clocks, whatever the day start |
| ReportSpec.HourFromMidnight | src/portal/analytics/reports/sales-series.sql.ts:124-138 | a sale's hour counts from its calendar day's midnight in Manila |
| ReportSpec.WeekdaySlot | src/portal/analytics/reports/sales-series.sql.ts:145-155 | slot 0 holds Sunday's business days (2023-01-01 was one), slot 6 Saturday's |
| ReportSpec.TrendDay | src/portal/analytics/reports/sales-series.sql.ts:64-84 | a daily trend bucket holds the sales made in that day's 24 hours |
| ReportSpec.TrendWeek | src/portal/analytics/reports/sales-series.sql.ts:64-84 | a weekly one is named by a Monday and holds the seven days from its start |
| ReportSpec.TrendMonth | src/portal/analytics/reports/sales-series.sql.ts:64-84 | a monthly one is named by the month's first and holds the business days written with its year and month |
| Conservation.TrendSumsHeatmap | src/portal/analytics/reports/sales-series.sql.ts:55-84 | each day, week or month trend bucket is, in sales and in count, the sum of the heatmap days that fall in it, for businesses with differing day starts |
| Conservation.TruncStarts | src/portal/analytics/reports/sales-series.sql.ts:64-70 | a week bucket is the Monday at most six days back, a month bucket the first of the same month |
| Conservation.PaymentSplitConserves | src/portal/analytics/reports/sales-series.sql.ts:163-179 | the payment split, merged over businesses, sums to net sales plus service charge |
| ReportSpec.PaymentSplit | src/portal/analytics/reports/sales-series.sql.ts:163-185 | a method's amount and count are those of the payments by it in the completed sales of the scope |
| ReportSpec.CountedOnce | src/portal/analytics/reports/sales-series.sql.ts:168-178 | a posted sale counts once, under the method of its one payment, so counting payments is counting sales |
| Conservation.OrderLevelDiscount | src/portal/analytics/profit/leaks-report.service.ts:75-104 | the loop's remainder is the sum of the order discounts the engine computed, and line nets are net sales plus it |
| NamedDiscounts.NamedDiscountExact | src/portal/analytics/reports/leaks.sql.ts:77-104 | per discount id, the line and order queries of all businesses together carry what the engine took off because of it: promos it gave on lines plus order discounts computed from it, and how often |
| NamedDiscounts.NamedDiscountTotals | src/portal/analytics/profit/leaks-report.service.ts:112-137 | the report's merge by id holds exactly that amount and count for every discount |
| MovementLedger.Movements | src/portal/analytics/inventory/inventory-report.service.ts:97-166 | refused iff page x pageSize passes the bound; otherwise the page of the globally sorted ledger, with the true total and page count |
| MovementLedger.MergedPrefix | src/portal/analytics/inventory/inventory-report.service.ts:24-33 | the global first n rows are the first n of the per-business first n's |
| MovementLedger.PagesCoverLedger | src/portal/analytics/inventory/inventory-report.service.ts:157-165 | pages 1..totalPages concatenate to the whole sorted ledger: no gap, no repeat |
| MovementLedger.LedgerIs | src/portal/analytics/reports/inventory.sql.ts:20-32 | the ledger holds exactly the movements of the branches, window, kind and product asked for, newest first and by id within an instant |
| MovementLedger.PageIs | src/portal/analytics/inventory/inventory-report.service.ts:160-160 | page p holds the rows from (p - 1) x pageSize on, pageSize of them unless the ledger ends first |
| MovementLedger.PageCount | src/portal/analytics/inventory/inventory-report.service.ts:164-164 | the page count is the least that reaches the end of the ledger, and at least one |
| MovementLedger.MatchingDistinct | src/portal/analytics/reports/inventory.sql.ts:20-59 | as a branch belongs to one business, no movement is selected twice |
| MovementLedger.SortPermutation | src/portal/analytics/reports/inventory.sql.ts:61-98 | (time desc, id desc) is a total order on distinct ids: the sorted ledger does not depend on the order fetched |
| SoftDeleteReadProofs.ScopedReadIsLive | src/prisma/scoped-prisma.ts:857-867 | a scoped read matches exactly the live rows of the scope that match the caller's filter |
| SoftDeleteReadProofs.ExplicitDeletedAtFindsNothing | src/prisma/scoped-prisma.ts:309-314 | a top-level filter asking for deleted rows matches none |
| SoftDeleteReadProofs.RewrittenLoadIsLive | src/prisma/scoped-prisma.ts:321-377 | at every depth and under any limits, the rewritten load is the original load from tables whose deleted to-many children cannot be seen (unless the entry's filter names deletedAt) |
| SoftDeleteReadProofs.RewrittenLoadIsPruned | src/prisma/scoped-prisma.ts:321-377 | it is the original load with those children dropped from the result iff every nested limit met is harmless |
| SoftDeleteReadProofs.LimitBreaksPruning | src/prisma/scoped-prisma.ts:321-377 | an input where a nested limit makes the two differ |
| SoftDeleteReadProofs.Idempotent | src/prisma/scoped-prisma.ts:321-377 | rewriting twice is rewriting once |
| SoftDeleteReadProofs.ToOneNeverFiltered | src/prisma/scoped-prisma.ts:329-340 | at every depth only to-many entries that do not name deletedAt change, and only by that filter |
| SoftDeleteWriteProofs.RewriteKeepsMeaning | src/prisma/scoped-prisma.ts:558-646 | a write tree of any depth, applied as written to tables that delete and as rewritten to tables that stamp, keeps the two equal up to erased rows that stay, stamped; for trees whose objects are in order, with no updateMany that may revive, no upsert and no bare to-one delete the walk meets, each of which breaks it |
| SoftDeleteWriteProofs.RewriteKeepsLiveRows | src/prisma/scoped-prisma.ts:558-646 | so for such trees the live rows afterwards are the same |
| WriteSpec.RewriteAddsOnlyStamps | src/prisma/scoped-prisma.ts:558-646 | at every depth the rewritten tree writes no columns, sets no condition or filter and names no row that the sent one did not, but for writing the time of the request to deletedAt |
| SoftDeleteWriteProofs.HarmlessExactly | src/prisma/scoped-prisma.ts:597-612 | a nested updateMany keeps that correspondence for all tables iff it does not clear deletedAt on rows that may be stamped |
| SoftDeleteOrderProofs.InOrderExactly | src/prisma/scoped-prisma.ts:577-613 | for every object without nested relations, upserts or reviving updateMany, in any order of keys: it and every object made of its entries keep their meaning on all tables iff no delete is moved across an operation that makes, brings in or takes out a row it matches, or makes one it names |
| SoftDeleteOrderProofs.ReplaceAllLosesTheNew | src/prisma/scoped-prisma.ts:598-613 | on every table { deleteMany: {}, create: [v] } leaves the new row live as written and stamped as sent |
| SoftDeleteOrderProofs.NamedDeletesInOrder | src/prisma/scoped-prisma.ts:577-597 | deletes of named rows written ahead of any creates are in order |
| SoftDeleteWriteProofs.UpsertParts | src/prisma/scoped-prisma.ts:558-646 | every nested upsert, whatever it writes, has tables on which the two part: a stamped row is updated where a deleted one is created anew |
| SoftDeleteWriteProofs.BareToOneDeleteRefused | src/prisma/scoped-prisma.ts:578-596 | a to-one delete without a condition fails once rewritten, on all tables |
| SoftDeleteErasure.RewriteErasesNothing | src/prisma/scoped-prisma.ts:558-646 | a tree with no delete below an upsert or a to-one update written without a where erases no row and moves none once rewritten |
| SoftDeleteErasure.RewriteLeavesNoDelete | src/prisma/scoped-prisma.ts:558-646 | the rewritten tree holds no delete at any depth iff the submitted one has none below such an entry |
| SoftDeleteErasure.ErasesNothingExactly | src/prisma/scoped-prisma.ts:614-636 | a rewritten tree whose every entry hits a row erases nothing iff that condition holds |
| SoftDeleteErasure.ToOneUpdateErases | src/prisma/scoped-prisma.ts:614-636 | an input where a deleteMany below a where-less to-one update erases a live row |
| SoftDeleteErasure.UpsertErases | src/prisma/scoped-prisma.ts:558-646 | an input where a deleteMany in a nested upsert erases a live row |
| SoftDeleteClientProofs.RunRefines | src/prisma/scoped-prisma.ts:887-1122 | over whole runs of creates, updates, deletes, bulk operations and upserts the client answers as, and shows the rows of, a store that really deletes, as long as no update names or matches a deleted row and each nested tree is one the rewrite keeps the meaning of, and names only rows live at their turn (or, if it stamps by hand, is accepted by the deleting store) or is refused as sent too; creates and deletes need no care |
| SoftDeleteClientProofs.StepRefines | src/prisma/scoped-prisma.ts:952-1122 | the same for one request |
| SoftDeleteClientProofs.RunErasesNothing | src/prisma/scoped-prisma.ts:887-1122 | over any run of any requests whose nested deletes the walk reaches, no row is erased or moved |
| SoftDeleteClientProofs.UpdateErasesExactly | src/prisma/scoped-prisma.ts:1065-1074 | an update whose every entry hits a row erases nothing iff the walk reaches its deletes |
| SoftDeleteClientProofs.UpdateAgreesExactly | src/prisma/scoped-prisma.ts:1065-1074 | an update with any faithful tree that stamps nothing by hand answers as the deleting store iff the row it names in scope is not deleted and its tree, unless refused as sent, names only rows live at their turn |
| SoftDeleteNames.AcceptedExactly | src/prisma/scoped-prisma.ts:558-646 | for every tree, upserts and any order of keys included, that writes no time to deletedAt by hand and holds no updateMany that may revive: the deleting store accepts it iff, stamping in written order, every row named is live at its turn, and then holds the live rows of the stamped tables |
| SoftDeleteClientProofs.DeletedChildAccepted | src/prisma/scoped-prisma.ts:577-597 | an input where the client accepts an update that deletes or renames a deleted child and the deleting store fails |
| SoftDeleteClientProofs.ValidUpdateAgreesExactly | src/prisma/scoped-prisma.ts:1065-1074 | for trees that may stamp by hand but hold up where the row is live: it answers as the deleting store iff the row it names in scope is not deleted |
| SoftDeleteClientProofs.BulkUpdateAgreesExactly | src/prisma/scoped-prisma.ts:1099-1102 | a bulk update counts as the deleting store iff it matches no deleted row |
| SoftDeleteClientProofs.UpdateRevives | src/prisma/scoped-prisma.ts:954-956 | an update that clears deletedAt brings a deleted row back |
| SoftDeleteClient.Client.DeleteManyCall | src/prisma/scoped-prisma.ts:1038-1062 | the loop writes the time to deletedAt of exactly the undeleted rows matched in scope, changes nothing else, and counts them |
| SoftDeleteClient.Client.UpdateManyCall | src/prisma/scoped-prisma.ts:1099-1122 | the loop writes exactly the rows matched in scope, deleted ones included, and counts them |
| ClientAnswers.DeleteIs | src/prisma/scoped-prisma.ts:1011-1035 | a delete finds an undeleted row in scope and writes the time to its deletedAt, or fails and changes nothing |
| ClientAnswers.ChangeIs | src/prisma/scoped-prisma.ts:1065-1095 | an update of columns finds any row in scope, writes those columns over its own and changes no other row |
| ClientAnswers.UpsertIs | src/prisma/scoped-prisma.ts:952-1008 | an upsert updates the undeleted row it finds in scope and otherwise adds its row |
| ClientAnswers.CreatesAre | src/prisma/scoped-prisma.ts:902-948 | creates add their rows in order and change no other |
| ReplaceSets.BuildLinkReplaceSet | src/portal/catalog/modifier-groups.service.ts:282-314 | the loops compute the specified diff: links to create, restore and delete, or null |
| ReplaceSetProofs.RefusedExactly | src/portal/catalog/products.service.ts:351-368 | a submission is refused iff it names an unknown id (reported first) or repeats one |
| ReplaceSetProofs.ReplaceSetIsExact | src/portal/catalog/modifier-groups.service.ts:236-274 | an accepted diff, rewritten and applied, leaves exactly the submitted rows live, keeps ids, writes the submitted columns, stamps the rest and touches nothing else |
| ReplaceSetProofs.DiffFaithful | src/portal/catalog/products.service.ts:370-401 | every diff of creates, flat updates and deletes is one the rewrite keeps the meaning of |
| UniqueProofs.VariantsReplaced | src/portal/catalog/products.service.ts:351-402 | an accepted variant submission gets past the unique indexes iff its SKUs and its barcodes fit (a new variant's is held by no row of the product, live or stamped, and no other new variant; an update's by no other row when its turn comes), and then leaves exactly the submitted variants live, keeps ids and stamps the rest |
| SubmissionAnswers.VariantsStored | src/portal/catalog/products.service.ts:351-402 | what is then stored, in the submission's own values: named variants keep their row and take name, SKU, barcode, price and cost, the others get new rows in order, current ones not named are deleted at the time given, nothing else changes |
| SubmissionAnswers.VariantsRefused | src/portal/catalog/products.service.ts:351-366 | a submission is refused for the first id that is no current variant's, else iff an id repeats |
| UniqueProofs.DiffAdmittedExactly | prisma/schema.prisma:352-353 | the same condition, for any diff of creates, flat updates and deletes and any set of unique columns |
| UniqueProofs.HeldSkuRefused | src/portal/catalog/products.service.ts:140-158 | an accepted submission that gives a new variant a SKU any row of the product holds, stamped ones included, is refused |
| UniqueProofs.ReplacedSkuRefused | src/portal/catalog/products.service.ts:351-402 | the input: replacing a variant by a new one with the same SKU is accepted and then refused |
| UniqueProofs.TradedSkuRefused | src/portal/catalog/products.service.ts:351-402 | an update to a SKU that a variant updated later still holds is refused, so two cannot trade |
| ReplaceSetProofs.ModifiersReplaced | src/portal/catalog/modifier-groups.service.ts:236-274 | the same for a group's modifiers |
| SubmissionAnswers.ModifiersStored | src/portal/catalog/modifier-groups.service.ts:236-274 | the same for modifiers, with name and price delta |
| SubmissionAnswers.ModifiersRefused | src/portal/catalog/modifier-groups.service.ts:236-251 | and their refusals |
| ReplaceSetProofs.LinksSettle | src/portal/catalog/modifier-groups.service.ts:179-224 | after the rewritten link diff the live groups are the desired set, one row per (product, group), old rows kept under their ids, nothing erased |
| SubmissionAnswers.LinksAre | src/portal/catalog/modifier-groups.service.ts:179-224 | the undeleted productModifierGroups rows then name exactly the desired groups |
| UniqueProofs.LinkDiffAdmitted | prisma/schema.prisma:405 | every link diff gets past the unique index on (product, group), stamped links included, because it restores rather than recreates |
| ReplaceSetProofs.NullExactlyWhenSettled | src/portal/catalog/modifier-groups.service.ts:308-308 | the diff is null iff the live groups are the desired ones already |
| ReplaceSetProofs.SecondDiffIsNull | src/portal/catalog/modifier-groups.service.ts:277-314 | repeating the request produces no second diff, however the links are listed |
| Lockout.User.AssertNotLocked | src/common/lockout/lockout.service.ts:27-42 | reports a lock iff one is in force at the first clock reading, with the least whole number of seconds that covers what is left at the second; it is positive iff the lock is still in force then |
| Lockout.User.RecordFailure | src/common/lockout/lockout.service.ts:48-82 | adds one to that kind's counter, locks that kind for 300 s from the fourth failure on, reports four less the count or zero, and leaves the other kind alone |
| Lockout.User.RecordSuccess | src/common/lockout/lockout.service.ts:87-105 | clears that kind's counter and lock, and only that kind's |
| Lockout.User.VerifyPinWithLockout | src/common/lockout/lockout.service.ts:112-142 | the guarded verification as one transition, with each outcome's condition and what it leaves in the counters |
| LockoutTheorems.RateBound | src/common/lockout/lockout.service.ts:27-82 | in a run of both kinds with anything of the other kind mixed in, at most 4 + floor(T/300) failures of one kind fall in any window of T seconds while that kind's requests come one after another, none is reported accepted and no reset comes between; a right secret that the lock turns away is no success and may be among them |
| LockoutTheorems.CounterRateBound | src/common/lockout/lockout.service.ts:27-82 | the same for one counter and its own attempts, none of them accepted |
| LockoutTheorems.RateBoundIsTight | src/common/lockout/lockout.service.ts:27-82 | for every n a run reaches 4 + n failures within n lockouts |
| LockoutTheorems.RemainingIsHonest | src/common/lockout/lockout.service.ts:54-56 | attemptsRemaining is max(0, 4 - refusals since the last reset) in every run |
| LockoutTheorems.KindsAreIndependent | src/common/lockout/lockout.service.ts:48-105 | dropping every event of the other kind changes nothing this kind reports |
| Csv.ToCsv | src/portal/analytics/csv.ts:38-49 | the loops write the byte order mark and the joined lines of all records |
| Csv.RoundTrip | src/portal/analytics/csv.ts:32-49 | an RFC 4180 reader returns every section's title, columns and rows with a blank line between, unknown cells empty, for fields with any mix of commas, quotes, CR and LF; the file starts with the byte order mark and ends its last line |
| Csv.QuotedExactly | src/portal/analytics/csv.ts:32-36 | a field is quoted iff it holds a comma, a quote or a line end |
| Csv.RoundTripNothing | src/portal/analytics/csv.ts:38-49 | no sections read back as one record of one empty field |
| Csv.RoundTripExact | src/portal/analytics/csv.ts:38-49 | the records read are exactly the ones written iff there is a section and no empty column list or row |
| Csv.PesosRoundTrip | src/portal/analytics/csv.ts:25-30 | an exported amount reads back to the centavo, and only an unknown one is blank |

## Left out

- HTTP controllers, DTO decorators, mail, seeding, plain CRUD services, days-of-stock and margin one-liners: wiring, or settled by reading one branch.
- Secret hashing, token handling and id generation: a credential check is a boolean input, generated ids are distinct (a sale's and its payment's come from the client and are checked), clocks are inputs.
- Floating point and decimal columns: money and quantities are exact integers, rates are ten-thousandths, and round(numeric) is half away from zero.
- Product, variant and discount lookups of validateLines, validateDiscounts and receive: one boolean outcome per request or line.
- Which cost a line's snapshot takes (an optional input per cart line), profit per trend bucket or product, batches, expiry, misc lines and the void/refund buckets of the leaks report.
- The names and kinds joined to discount ids: discounts that rows refer to are taken to exist.
- The receipt sequence counter; the receipt number's uniqueness per terminal and the payment id's are kept.
- The `replayed` flag of an answer: a duplicate caught under the lock returns the stored sale with `replayed: false`, so nothing is claimed about it.
- Races the code disclaims: concurrent adjusts, concurrent shift opens, and a sale racing a shift close; adjust is one atomic step and shifts run serially.
- ShiftTheorems.ZReportFrozen: whether a sale's stock and receipt checks pass is an input of the serial run, not recomputed from the stock model.
- Removal of sales and stock levels: neither is ever soft-deleted in the model, and the deleted_at conditions of the report queries are therefore dropped.
- SaleRecords.CheckedDraftIsPosted: line ids of a draft are taken as distinct, because totals are looked up by first match.
- The order of equal-ranked output: trend and breakdown listings are compared as sets of entries with sums, not as sorted lists.
- MovementLedger.Movements: ids are ordered as numbers and localeCompare is taken to agree with the database's order of ids; Array.sort is an insertion sort.
- Conservation.PaymentSplitConserves: distinct sales per method are counted as payments, which agrees while a sale has one payment.
- The order of restoreStock's query is the order of the log.
- Reads that pass `includeDeleted`: the client leaves their soft-delete filters out.
- SoftDeleteReadProofs.RewrittenLoadIsLive: ordering and skip of nested loads are not modelled; a nested entry has a filter, a limit and its own include and select.
- SoftDeleteWriteProofs.RewriteKeepsMeaning: the database client is taken to run the keys of a nested object in the order they are written; its source is not part of this model. A row has one parent, which all its to-one relations reach; nested creates carry columns only (the rewrite does not descend into them either); connect, set, createMany and the to-one upsert, all left as they are by the rewrite, are not modelled; filters are column equalities; the single-or-array shape of nested arguments and the audit list are not modelled; every model carries deletedAt, as the schema has it. An update that a delete is moved across may hold nested relations only if they stay out of the relation at hand and go up through no to-one relation, which is sufficient.
- SoftDeleteOrderProofs.InOrderExactly: an object out of order may still keep its meaning as a whole, when another of its entries hides what the move changes or it never succeeds as written; the converse gives two of its entries that part the tables alone.
- SoftDeleteClientProofs.UpdateAgreesExactly: trees that write a time to deletedAt by hand are covered by ValidUpdateAgreesExactly instead.
- SoftDeleteNames.AcceptedExactly: trees that write a time to deletedAt by hand, or hold a reviving updateMany, are left out of it, as a row's own deletedAt then no longer tells whether the deleting store still has it.
- SoftDeleteErasure.ErasesNothingExactly: a tree whose entries match no row may erase nothing even with such a delete, so the converse is for trees whose entries each hit one.
- SoftDeleteClientProofs.RunRefines: audit rows and create policing are not modelled, nor unique indexes, which are set against the variant and link diffs only; a failed write leaves the tables as they were.
- UniqueProofs.VariantsReplaced: the service's own check of identifiers across the business's other products is not part of it; indexes are checked row by row, creates before updates.
- Tenancy scoping beyond its AND with the caller's filter: which businesses and branches a request may see is not modelled.
- The overview's previous-period comparison and derived ratios.
