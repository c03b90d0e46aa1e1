# Credit tracker ledger engine, modelled in Dafny

This project models the allocation engine of a personal debt/credit ledger
(`useCreditTracker.js`). The ledger holds withdrawals (debts), a log of payments and a
running credit balance. Recording a withdrawal appends a debt that falls due 30 days
later. Recording a payment does four things:

1. It sorts the withdrawals oldest first.
2. It pays them down in that order until the payment runs out.
3. It adds any surplus to the credit balance.
4. It logs the payment.

The dashboard figures are `totalDebt`, `creditBalance`, `netDebt` and `upcoming7Days`.
They are pure folds over the ledger.

The model is functional. Every operation takes a `Ledger` value and returns a new one.

- Amounts are exact integers in minor currency units.
- Dates are whole day numbers.
- Record ids are opaque strings that the caller supplies.
- The wall clock behind `upcoming7Days` is an explicit `today` parameter.

Files:

- `records.dfy` (module `Records`): the `Withdrawal`, `Payment` and `Ledger` datatypes.
  It also holds the ledger invariant `Valid`, the two balance sums and their laws:
  `Total` sums every balance, and `Outstanding` sums only the positive balances.
- `datesort.dfy` (module `DateSort`): the stable insertion sort by date that the payment
  applies. It comes with sortedness, permutation and stability facts, and a proof that
  it is the only stable sort by date.
- `allocation.dfy` (module `Allocation`): the settlement walk. `PayOne` is the loop body
  on one record. `Settle` is the recursive model: it checks the loop's `break` guard and
  then applies `PayOne` to the next record. `SettleInPlace` is the source's index loop
  with early `break`, proved equal to `Settle`. The module also proves conservation, the
  surplus rule and oldest-first order. Finally it gives a declarative description,
  `GreedyOutcome`, and proves that for a positive payment `Settle` is exactly the result
  that meets it. A payment of zero or less leaves the records as they are and is left
  over whole, as `Settle`'s own contract states.
- `tracker.dfy` (module `CreditTracker`): `AddWithdrawal`, `AddPayment`, the statistics
  and the lemmas that preserve the ledger invariant. It also has lemmas over whole sequences of operations
  (`Replay`).
- `scenarios.dfy` (module `Scenarios`): three worked ledgers.

`useCreditTracker.js` never rejects an amount, and the model has no positivity
precondition either:

- A payment of zero or less stops the walk at once, adds no credit, and is still logged.
- A withdrawal of zero or less is appended, and every later payment skips it.
- Because such balances can exist, the surplus statements (`SettleLeftover`,
  `PaymentCredit`) use `Outstanding`, the sum of the positive balances.
  `SettleConserves` is stated for both sums. The whole-ledger statements
  (`PaymentConserves`, `ReplayNetDebt`) use `totalDebt`. On a ledger of valid records, `Outstanding` equals `totalDebt`
  (`ValidDebtIsOutstanding`).

Paying 60 against two debts of 50 clears the older one and leaves the later one at 40,
and the records end in date order (`OldestSettledFirst`).

## Model

| member | source | states |
|---|---|---|
| CreditTracker.AddWithdrawal | useCreditTracker.js:21-35 | Exactly one record is appended at the end, carrying the given id, amount, date and note. Its balance equals its amount and it falls due 30 days after its date. Earlier withdrawals, the payments and the credit are unchanged. |
| CreditTracker.WithdrawalAddsDebt | useCreditTracker.js:21-34 | A new withdrawal raises the total debt and the net debt by exactly its amount. |
| CreditTracker.WithdrawalUpcoming | useCreditTracker.js:80-82 | A new withdrawal adds its amount to `upcoming7Days` exactly when the amount is positive and its due date is at most 7 days after today; otherwise the figure is unchanged. |
| CreditTracker.WithdrawalKeepsValid | useCreditTracker.js:21-34 | A withdrawal of a non-negative amount keeps every balance between 0 and the amount, keeps every due date at date + 30, and keeps the credit non-negative. |
| DateSort.SortByDate | useCreditTracker.js:42 | The result is sorted by ascending date and is a permutation of the input. |
| DateSort.SortIsStable | useCreditTracker.js:42 | For every date, the records with that date keep their relative order, as `Array.prototype.sort` guarantees. |
| DateSort.StableSortIsUnique | useCreditTracker.js:42 | Any arrangement that is sorted by date and keeps each date's records in order equals `SortByDate`. So the model agrees with every stable sort that uses the source's comparator. |
| Allocation.PayOne | useCreditTracker.js:50-58 | For a payment not yet used up, the record is paid down and what remains to pay lies between 0 and the payment. The balance falls by exactly what the payment lost, counted in full or only where positive. If money remains, the record ends at 0 or below. A record left positive but changed means the payment ran out. |
| Allocation.Settle | useCreditTracker.js:47-60 | The walk keeps the number of records. A payment of zero or less changes nothing and is left over whole. Otherwise the leftover lies between 0 and the payment. |
| Allocation.SettlePaysDown | useCreditTracker.js:51-58 | Each record keeps its id, amount, date, note and due date. A balance of zero or less is left exactly as it was. A positive balance ends between 0 and its old value. |
| Allocation.SettleConserves | useCreditTracker.js:47-60 | For a positive payment, the drop in the balances plus the leftover equals the payment. This holds both for all balances and for the positive balances. |
| Allocation.SettleLeftover | useCreditTracker.js:47-65 | For a positive payment: nothing is left over if the payment is at most what is outstanding. Otherwise exactly payment − outstanding is left over. A payment that covers everything outstanding leaves every balance at 0 or below. |
| Allocation.SettleSurplusClears | useCreditTracker.js:47-60 | A walk that ends with money to spare has cleared every balance. |
| Allocation.SettleOldestFirst | useCreditTracker.js:47-60 | A record is paid down only if every earlier record ends at 0 or below. A record left partly paid means nothing is left over and every later record is untouched, because the walk stops there. |
| Allocation.SettleIsTheGreedyOutcome | useCreditTracker.js:47-60 | For a positive payment, a result equals the walk's result if and only if it meets `GreedyOutcome`: every record paid down, oldest first, and the outstanding debt reduced by min(payment, outstanding). |
| Allocation.GreedyOutcomeIsUnique | useCreditTracker.js:47-60 | At most one sequence of records meets `GreedyOutcome`, and it is the walk's result. |
| Allocation.PaidDownShrinks | useCreditTracker.js:51-58 | Paying records down never raises the outstanding debt, and leaves it equal only when no record changed. |
| Allocation.SettleInPlace | useCreditTracker.js:47-60 | The source's index loop computes exactly the recursive `Settle`: the same records and the same `paymentRemaining`. The loop stops early once the payment is used up and rewrites balances in place. |
| Allocation.PayAt | useCreditTracker.js:50-58 | The in-place loop body on index `i` changes only that slot. It pays that record down by exactly what the payment loses, keeps the remaining payment between 0 and what it was, and clears the record whenever some payment remains. |
| Allocation.PayOneIsDetermined | useCreditTracker.js:50-58 | Those properties of one pass of the loop body fix its result: any record and remaining payment that meet them are exactly what `PayOne` produces. |
| CreditTracker.AddPayment | useCreditTracker.js:37-74 | The result's withdrawals are sorted by date and have the same length as before. They are the same debts as before, as a multiset of issued records, and each is the date-sorted input record paid down. Exactly one payment record with the given id, amount and date is appended to the log. The credit does not fall. |
| CreditTracker.PaymentConserves | useCreditTracker.js:38-65 | For a positive payment, the drop in total debt plus the rise in credit equals the amount exactly. A payment of zero or less changes neither. The net debt falls by exactly the positive part of the amount. |
| CreditTracker.PaymentCredit | useCreditTracker.js:47-65 | A payment up to what is outstanding leaves the credit unchanged. A larger payment adds exactly amount − outstanding to the credit. A payment covering everything outstanding leaves every balance at 0 or below. |
| CreditTracker.PaymentOldestFirst | useCreditTracker.js:42-60 | In the sorted order the payment leaves behind, a record is reduced only if every earlier record ends at 0 or below. Every record after a partly paid one is untouched. |
| CreditTracker.PaymentIsGreedy | useCreditTracker.js:42-60 | The withdrawals a positive payment leaves are the greedy outcome over the date-sorted records. |
| CreditTracker.PaymentOnValidLedger | useCreditTracker.js:47-65 | On a valid ledger, a payment of at most the total debt lowers that debt by exactly the payment and leaves the credit unchanged. A larger payment sets every balance to 0 and credits payment − totalDebt. |
| CreditTracker.PaymentKeepsValid | useCreditTracker.js:47-60 | A payment of any amount keeps a valid ledger valid. |
| CreditTracker.PaymentNeverRaisesUpcoming | useCreditTracker.js:80-82 | For any `today`, a payment never raises `upcoming7Days`, even though it reorders the records. |
| CreditTracker.GetStats | useCreditTracker.js:76-83 | `creditBalance` is the ledger's credit, and `netDebt` is `totalDebt` − `creditBalance`. `upcoming7Days` lies between 0 and what is outstanding, and on valid records it is at most `totalDebt`. |
| CreditTracker.UpcomingBounds | useCreditTracker.js:80-82 | `upcoming7Days` lies between 0 and the sum of the positive balances. |
| CreditTracker.UpcomingGrowsWithTime | useCreditTracker.js:80-82 | Because overdue records stay in the filter, `upcoming7Days` never shrinks as `today` advances. |
| CreditTracker.UpcomingExtremes | useCreditTracker.js:80-82 | If every record is due within 7 days, `upcoming7Days` is everything outstanding. If none is, it is 0. |
| CreditTracker.StatsOfPermutation | useCreditTracker.js:76-83 | `totalDebt` and `upcoming7Days` do not depend on the order of the records. |
| CreditTracker.ReplayNeverRaisesBalances | useCreditTracker.js:21-74 | After any sequence of operations, each earlier record is matched to a record of its own in the final ledger, with no two matched to the same one. The matched record is the same debt with a balance no higher. So no record disappears and no balance rises, even among identical debts. |
| CreditTracker.ReplayCreditAndLog | useCreditTracker.js:63-71 | After any sequence of operations, the credit has not fallen. The payment log is the old log followed by the recorded payments, in order. |
| CreditTracker.ReplayNetDebt | useCreditTracker.js:76-79 | After any sequence of operations, the net debt has moved by exactly the amount borrowed minus the positive amounts paid. |
| CreditTracker.ReplayKeepsValid | useCreditTracker.js:21-74 | From a valid ledger, any sequence of operations with no negative withdrawal amount ends in a valid ledger. |
| Scenarios.RentOverpaid | useCreditTracker.js:21-74 | Start empty and borrow 100 for rent, which gives a total debt of 100 and no credit. Then pay 150: the debt ends at 0, the credit is 50 and the net debt is −50. |
| Scenarios.OldestSettledFirst | useCreditTracker.js:42-60 | Debts of 50 (February, recorded first) and 50 (January), then a payment of 60. January is settled, February is left at 40, and the records end in date order. |
| Scenarios.DueWindow | useCreditTracker.js:80-82 | A balance due in 3 days and an overdue balance are counted. A balance due in 10 days is not. |

## Left out

- Persistence through `localStorage` and `JSON.parse`/`JSON.stringify` (useCreditTracker.js:7-19) is left out. It is browser I/O, and the serializer is not visible. The model starts from an explicit ledger value, `EmptyLedger` when nothing was stored.
- Id generation through `Date.now()` (useCreditTracker.js:23, 70) is left out. Ids are caller-supplied strings, and nothing in the model relies on them being unique.
- `parseFloat` and IEEE-754 double arithmetic are left out. Amounts are exact integers, so conservation holds exactly. NaN from unparsable input is not modelled.
- date-fns `parseISO`, `addDays` and `toISOString` are left out. A date is a day number and the due date is date + 30. The source converts a local-midnight date to a UTC string, so in time zones east of UTC the stored due date can be one day earlier; the model does not capture that shift.
- GetStats: `upcoming7Days` compares whole day numbers, `dueDate − today ≤ 7`. The source compares a due date at local midnight with the current instant, using `differenceInDays`, which counts whole days. When the clock is past midnight, a debt due 8 calendar days ahead therefore also passes the source's test. The model does not capture this.
- The sort comparator subtracts `new Date(...)` values. Invalid date strings would make it return NaN, and that case is not modelled.
- The React `setData` updater and the in-place mutation of withdrawal objects shared with the previous state (useCreditTracker.js:54, 56) are left out. Each operation returns a fresh immutable ledger.
- App.jsx is left out in full. It covers form handling, currency formatting and spreadsheet export, and contains no allocation logic.
